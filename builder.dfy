/**
 * The schema builder: a small state machine that collects value declarations in order. It keeps the
 * active category, the pending modifiers for the next value (comment, restart flag, sync flag), the
 * comments given to categories and the list of declared values.
 */
module Builder {
  import opened Outcomes
  import opened Values
  import opened Config
  import opened Library

  /** The position of the last occurrence of c in s, or -1 when s has none. */
  function LastIndexOf(s: string, c: char): (r: int)
    ensures -1 <= r < |s|
    ensures r >= 0 ==> s[r] == c
    ensures forall k :: r < k < |s| ==> s[k] != c
  {
    if s == [] then -1
    else if s[|s| - 1] == c then |s| - 1
    else LastIndexOf(s[..|s| - 1], c)
  }

  /** The category left by pop: the last dot-segment removed, or nothing when there is no dot. */
  function PoppedCategory(category: string): (r: string)
    ensures '.' !in category ==> r == ""
    ensures '.' in category ==> && |r| < |category| && r == category[..|r|] && category[|r|] == '.'
                                && '.' !in category[|r| + 1..]
  {
    var index := LastIndexOf(category, '.');
    if index == -1 then "" else category[..index]
  }

  /** getPath: the name, prefixed by the active category and a dot when a category is active. */
  function GetPath(category: string, name: string): (r: Result<string>)
    ensures r.Err? <==> name == ""
    ensures r.Err? ==> r.error == EmptyName
    ensures r.Ok? && category == "" ==> r.value == name
    ensures r.Ok? && category != "" ==> && |r.value| == |category| + 1 + |name|
                                        && r.value[..|category|] == category && r.value[|category|] == '.'
                                        && r.value[|category| + 1..] == name
  {
    if name == "" then Err(EmptyName)
    else Ok((if category == "" then "" else category + ".") + name)
  }

  /** Popping after defining a dot-free name gives back the category the name was defined in. */
  lemma {:induction false} PopInvertsGetPath(category: string, name: string)
    requires name != "" && '.' !in name
    ensures PoppedCategory(GetPath(category, name).value) == category
  {
    var path := GetPath(category, name).value;
    if category != "" {
      var index := LastIndexOf(path, '.');
      assert path[|category|] == '.';
      assert index >= |category|;
      assert path[..index] == category;
    }
  }

  /** The builder's whole state, as a value. */
  datatype BuilderState = BuilderState(
    allValues: seq<ConfigValue>,
    categoryComments: map<string, string>,
    category: string,
    comment: string,
    requiresGameRestart: bool,
    syncWithClient: bool)

  /** The pending modifiers cleared: no comment, no restart, synced. */
  function Reset(s: BuilderState): (r: BuilderState)
    ensures r.allValues == s.allValues && r.categoryComments == s.categoryComments && r.category == s.category
    ensures r.comment == "" && !r.requiresGameRestart && r.syncWithClient
  {
    s.(comment := "", requiresGameRestart := false, syncWithClient := true)
  }

  class ModConfigBuilder {
    const modid: string
    const kind: ConfigType
    var allValues: seq<ConfigValue>
    var categoryComments: map<string, string>
    var category: string
    var comment: string
    var requiresGameRestart: bool
    var syncWithClient: bool

    function State(): BuilderState
      reads this
    {
      BuilderState(allValues, categoryComments, category, comment, requiresGameRestart, syncWithClient)
    }

    /** Every declared value has a non-empty path and is as it was created (default stored value, no
        override); every category comment is non-empty and belongs to a non-empty category. */
    ghost predicate Valid()
      reads this
    {
      && (forall i :: 0 <= i < |allValues| ==>
            allValues[i].decl.path != "" && allValues[i] == NewValue(allValues[i].decl))
      && (forall c :: c in categoryComments ==> c != "" && categoryComments[c] != "")
    }

    /** A builder for a mod; the kind defaults to a common config. */
    constructor (modid: string, kind: ConfigType := Common)
      ensures Valid()
      ensures this.modid == modid && this.kind == kind
      ensures State() == BuilderState([], map[], "", "", false, true)
    {
      this.modid := modid;
      this.kind := kind;
      allValues, categoryComments := [], map[];
      category, comment := "", "";
      requiresGameRestart, syncWithClient := false, true;
    }

    /** push: refused for an empty category; takes effect only when no category is active. */
    method Push(newCategory: string) returns (r: Outcome)
      requires Valid()
      modifies this
      ensures Valid()
      ensures newCategory == "" ==> r == Fail(EmptyCategory) && State() == old(State())
      ensures newCategory != "" ==>
                r == Pass && State() == old(State()).(category := if old(category) == "" then newCategory else old(category))
    {
      if newCategory == "" {
        return Fail(EmptyCategory);
      }
      if category == "" {
        category := newCategory;
      }
      r := Pass;
    }

    /** pop: refused when no category is active; otherwise drops the last dot-segment. */
    method Pop() returns (r: Outcome)
      requires Valid()
      modifies this
      ensures Valid()
      ensures old(category) == "" ==> r == Fail(NoCategoryToPop) && State() == old(State())
      ensures old(category) != "" ==> r == Pass && State() == old(State()).(category := PoppedCategory(old(category)))
    {
      if category == "" {
        return Fail(NoCategoryToPop);
      }
      var index := LastIndexOf(category, '.');
      if index == -1 {
        category := "";
      } else {
        category := category[..index];
      }
      r := Pass;
    }

    /** categoryComment: refused for an empty comment, with no active category, or when the active
        category already has a comment; otherwise records the comment for the active category. */
    method CategoryComment(newComment: string) returns (r: Outcome)
      requires Valid()
      modifies this
      ensures Valid()
      ensures r.Fail? ==> State() == old(State())
      ensures newComment == "" ==> r == Fail(EmptyComment)
      ensures newComment != "" && old(category) == "" ==> r == Fail(NoCategoryPushed)
      ensures newComment != "" && old(category) != "" && old(category) in old(categoryComments) ==>
                r == Fail(CategoryAlreadyCommented(old(category)))
      ensures newComment != "" && old(category) != "" && old(category) !in old(categoryComments) ==>
                r == Pass && State() == old(State()).(categoryComments := old(categoryComments)[old(category) := newComment])
    {
      if newComment == "" {
        return Fail(EmptyComment);
      }
      if category == "" {
        return Fail(NoCategoryPushed);
      }
      if category in categoryComments {
        return Fail(CategoryAlreadyCommented(category));
      }
      categoryComments := categoryComments[category := newComment];
      r := Pass;
    }

    /** gameRestart: the next value defined requires a restart. */
    method GameRestart()
      requires Valid()
      modifies this
      ensures Valid()
      ensures State() == old(State()).(requiresGameRestart := true)
    {
      requiresGameRestart := true;
    }

    /** dontSync: the next value defined is not synced to clients. */
    method DontSync()
      requires Valid()
      modifies this
      ensures Valid()
      ensures State() == old(State()).(syncWithClient := false)
    {
      syncWithClient := false;
    }

    /** comment: refused for an empty comment or while a pending comment is unconsumed. */
    method Comment(newComment: string) returns (r: Outcome)
      requires Valid()
      modifies this
      ensures Valid()
      ensures r.Fail? ==> State() == old(State())
      ensures newComment == "" ==> r == Fail(EmptyComment)
      ensures newComment != "" && old(comment) != "" ==> r == Fail(CommentAlreadySpecified)
      ensures newComment != "" && old(comment) == "" ==> r == Pass && State() == old(State()).(comment := newComment)
    {
      if newComment == "" {
        return Fail(EmptyComment);
      }
      if comment != "" {
        return Fail(CommentAlreadySpecified);
      }
      comment := newComment;
      r := Pass;
    }

    /** The four define overloads: appends one value at the name's path, carrying the pending
        modifiers, and resets them. The handle returned is the value's position in declaration order. */
    method Define(name: string, entry: Entry) returns (r: Result<nat>)
      requires Valid()
      modifies this
      ensures Valid()
      ensures r.Err? <==> name == ""
      ensures r.Err? ==> r.error == EmptyName && State() == old(State())
      ensures r.Ok? ==> && r.value == |old(allValues)|
                        && State() == Reset(old(State())).(allValues := old(allValues) + [NewValue(Declaration(
                             GetPath(old(category), name).value, old(comment), old(requiresGameRestart),
                             old(syncWithClient), entry))])
    {
      var path := GetPath(category, name);
      if path.Err? {
        return Err(path.error);
      }
      var value := NewValue(Declaration(path.value, comment, requiresGameRestart, syncWithClient, entry));
      allValues := allValues + [value];
      ResetValues();
      r := Ok(|allValues| - 1);
    }

    /** resetValues: clears the pending modifiers. */
    method ResetValues()
      requires Valid()
      modifies this
      ensures Valid()
      ensures State() == Reset(old(State()))
    {
      requiresGameRestart := false;
      syncWithClient := true;
      comment := "";
    }

    /** build, without the persistence backend's file and declarations: creates the config from the
        declared values, updates it with initial = true and registers it. */
    method Build(lib: ConfigLib, identifier: string, read: Backend) returns (config: ModConfig, r: Outcome)
      requires Valid() && lib.Valid()
      modifies lib
      ensures fresh(config) && lib.Valid() && config.Valid()
      ensures config.identifier == identifier && config.modid == modid && config.kind == kind
      ensures config.schema == Declarations(allValues)
      ensures config.values == Refreshed(allValues, true, read)
      ensures config.valuesToSync == Snapshot(config.values, config.syncable)
      ensures r.Fail? <==> identifier in old(lib.configNames)
      ensures r.Fail? ==> r.error == DuplicateConfig(identifier) && lib.State() == old(lib.State())
      ensures r.Pass? ==> lib.configs == old(lib.configs) + [config]
    {
      config := new ModConfig(identifier, modid, kind, allValues);
      config.UpdateValues(true, read);
      r := lib.AddConfig(config);
    }
  }
}
