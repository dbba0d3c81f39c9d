// Inclusion of a type with its dependencies across module builders that refer to each other.

module Codegen {
  import opened Wrappers

  const STDLIB := "0x0000000000000000000000000000000000000000000000000000000000000001"
  const FRAMEWORK := "0x0000000000000000000000000000000000000000000000000000000000000002"

  // The type signatures of a module summary; Base is address, bool and the integers.
  datatype MoveType =
    | Base
    | Signer
    | Placeholder
    | Reference(target: MoveType)
    | Vector(element: MoveType)
    | TypeParameter(index: nat)
    | NamedTypeParameter(name: string)
    | Datatype(address: string, moduleName: string, typeName: string, arguments: seq<Argument>)

  datatype Argument = Argument(phantom: bool, argument: MoveType)

  datatype Parameter = Parameter(name: string, phantom: bool)

  // A struct's fields, or the fields of an enum's variants one after another.
  datatype TypeSummary = TypeSummary(parameters: seq<Parameter>, fields: seq<MoveType>)

  datatype ModuleSummary = ModuleSummary(structs: map<string, TypeSummary>, enums: map<string, TypeSummary>)

  datatype TypeId = TypeId(address: string, moduleName: string, name: string)

  datatype IncludeError =
    | SignerUnsupported
    | PlaceholderUnsupported
    | ParameterNotFound
    | NoTypeArgument
    | BuilderNotFound
    | TypeNotFound

  // The module builders by address and module name, and the address mappings.
  datatype Modules = Modules(summaries: map<(string, string), ModuleSummary>, resolve: string -> string) {
    function Key(id: TypeId): (string, string) {
      (id.address, id.moduleName)
    }

    predicate HasBuilder(id: TypeId) {
      Key(id) in summaries
    }

    predicate Known(id: TypeId) {
      HasBuilder(id) && (id.name in summaries[Key(id)].structs || id.name in summaries[Key(id)].enums)
    }

    function AllTypes(): set<TypeId> {
      set k, n | k in summaries && n in summaries[k].structs.Keys + summaries[k].enums.Keys :: TypeId(k.0, k.1, n)
    }
  }

  // ---------- Filtered type parameters ----------

  function NonPhantom(params: seq<Parameter>): (r: seq<Parameter>)
    ensures forall p | p in r :: !p.phantom
  {
    if params == [] then []
    else
      var last := params[|params| - 1];
      NonPhantom(params[..|params| - 1]) + if last.phantom then [] else [last]
  }

  // getFilteredTypeParameterIndex without phantoms; an index past the parameters counts.
  method FilteredIndex(originalIndex: nat, params: seq<Parameter>) returns (filtered: nat)
    ensures originalIndex <= |params| ==> filtered == |NonPhantom(params[..originalIndex])|
    ensures originalIndex > |params| ==> filtered == |NonPhantom(params)| + (originalIndex - |params|)
  {
    filtered := 0;
    for i := 0 to originalIndex
      invariant i <= |params| ==> filtered == |NonPhantom(params[..i])|
      invariant i > |params| ==> filtered == |NonPhantom(params)| + (i - |params|)
    {
      if i < |params| {
        assert params[..i + 1][..i] == params[..i];
      } else {
        assert params[..|params|] == params;
      }
      if i >= |params| || !params[i].phantom {
        filtered := filtered + 1;
      }
    }
  }

  // The filtered index of a parameter that is kept is its place among the kept ones.
  lemma {:induction false} FilteredPlace(params: seq<Parameter>, i: nat)
    requires i < |params| && !params[i].phantom
    ensures |NonPhantom(params[..i])| < |NonPhantom(params)|
    ensures NonPhantom(params)[|NonPhantom(params[..i])|] == params[i]
  {
    var n := |params| - 1;
    if i == n {
    } else {
      FilteredPlace(params[..n], i);
      assert params[..n][..i] == params[..i];
    }
  }

  // ---------- The dependency walk ----------

  // The dependencies a walk reports before it ends or throws.
  datatype Walk = Walk(deps: seq<TypeId>, error: Option<IncludeError>)

  const NOTHING := Walk([], None)

  function Then(a: Walk, b: Walk): Walk {
    if a.error.Some? then a else Walk(a.deps + b.deps, b.error)
  }

  function Fails(e: IncludeError): Walk {
    Walk([], Some(e))
  }

  predicate IsText(t: MoveType)
    requires t.Datatype?
  {
    (t.moduleName == "ascii" || t.moduleName == "string") && t.typeName == "String"
  }

  // renderTypeSignature in BCS format, as far as onDependency and errors go: strings, options and
  // object IDs are built in, and phantom arguments are not followed.
  function WalkType(g: Modules, params: seq<Parameter>, t: MoveType): Walk
    decreases t, 0
  {
    match t
    case Base => NOTHING
    case Signer => Fails(SignerUnsupported)
    case Placeholder => Fails(PlaceholderUnsupported)
    case Reference(target) => WalkType(g, params, target)
    case Vector(element) => WalkType(g, params, element)
    case TypeParameter(_) => NOTHING
    case NamedTypeParameter(name) =>
      if exists i :: 0 <= i < |params| && params[i].name == name then NOTHING else Fails(ParameterNotFound)
    case Datatype(address, moduleName, typeName, arguments) =>
      if g.resolve(address) == STDLIB && IsText(t) then NOTHING
      else if g.resolve(address) == STDLIB && moduleName == "option" && typeName == "Option" then
        if arguments == [] then Fails(NoTypeArgument) else WalkType(g, params, arguments[0].argument)
      else if g.resolve(address) == FRAMEWORK && moduleName == "object" && (typeName == "ID" || typeName == "UID") then
        NOTHING
      else Then(Walk([TypeId(address, moduleName, typeName)], None), WalkArguments(g, params, t, 0))
  }

  function WalkArguments(g: Modules, params: seq<Parameter>, t: MoveType, i: nat): Walk
    requires t.Datatype? && i <= |t.arguments|
    decreases t, 0, |t.arguments| - i
  {
    if i == |t.arguments| then NOTHING
    else if t.arguments[i].phantom then WalkArguments(g, params, t, i + 1)
    else Then(WalkType(g, params, t.arguments[i].argument), WalkArguments(g, params, t, i + 1))
  }

  function WalkFields(g: Modules, s: TypeSummary, n: nat): Walk
    requires n <= |s.fields|
  {
    if n == 0 then NOTHING else Then(WalkFields(g, s, n - 1), WalkType(g, s.parameters, s.fields[n - 1]))
  }

  // The walk over the fields of a type; a name that is both a struct and an enum has both.
  function Body(g: Modules, id: TypeId): Walk
    requires g.Known(id)
  {
    var m := g.summaries[g.Key(id)];
    var s := if id.name in m.structs then WalkFields(g, m.structs[id.name], |m.structs[id.name].fields|) else NOTHING;
    var e := if id.name in m.enums then WalkFields(g, m.enums[id.name], |m.enums[id.name].fields|) else NOTHING;
    Then(s, e)
  }

  // ---------- What rendering looks at ----------

  // A datatype by its resolved address, module and name.
  function Resolved(g: Modules, t: MoveType): (string, string, string)
    requires t.Datatype?
  {
    (g.resolve(t.address), t.moduleName, t.typeName)
  }

  const OPTION := (STDLIB, "option", "Option")

  // The types that are rendered without a dependency; of these only Option has its argument rendered.
  const BUILT_IN := {(STDLIB, "ascii", "String"), (STDLIB, "string", "String"), OPTION,
                     (FRAMEWORK, "object", "ID"), (FRAMEWORK, "object", "UID")}

  predicate IsUser(g: Modules, t: MoveType) {
    t.Datatype? && Resolved(g, t) !in BUILT_IN
  }

  predicate IsOption(g: Modules, t: MoveType) {
    t.Datatype? && Resolved(g, t) == OPTION
  }

  // The k-th part of t that rendering looks at: the target of a reference, the element of a vector,
  // the first argument of Option, and the arguments of other datatypes that are not phantom.
  function Part(g: Modules, t: MoveType, k: nat): (r: Option<MoveType>)
    ensures r.Some? ==> r.value < t
  {
    if t.Reference? && k == 0 then Some(t.target)
    else if t.Vector? && k == 0 then Some(t.element)
    else if t.Datatype? && k < |t.arguments| then
      if (IsOption(g, t) && k == 0) || (IsUser(g, t) && !t.arguments[k].phantom) then Some(t.arguments[k].argument)
      else None
    else None
  }

  // The type at the end of a path of such parts.
  function At(g: Modules, t: MoveType, path: seq<nat>): Option<MoveType>
    decreases path
  {
    if path == [] then Some(t)
    else
      var part := Part(g, t, path[0]);
      if part.None? then None else At(g, part.value, path[1..])
  }

  function IdOf(t: MoveType): TypeId
    requires t.Datatype?
  {
    TypeId(t.address, t.moduleName, t.typeName)
  }

  // A path ends in the datatype y, which is not built in.
  ghost predicate NamesAt(g: Modules, t: MoveType, path: seq<nat>, y: TypeId) {
    var u := At(g, t, path);
    u.Some? && IsUser(g, u.value) && IdOf(u.value) == y
  }

  ghost predicate Names(g: Modules, t: MoveType, y: TypeId) {
    exists path :: NamesAt(g, t, path, y)
  }

  // What cannot be rendered, by itself.
  function Unrenderable(g: Modules, params: seq<Parameter>, u: MoveType): Option<IncludeError> {
    if u.Signer? then Some(SignerUnsupported)
    else if u.Placeholder? then Some(PlaceholderUnsupported)
    else if u.NamedTypeParameter? && (forall p | p in params :: p.name != u.name) then Some(ParameterNotFound)
    else if IsOption(g, u) && u.arguments == [] then Some(NoTypeArgument)
    else None
  }

  // A path ends in something that throws e.
  ghost predicate ThrowsAt(g: Modules, params: seq<Parameter>, t: MoveType, path: seq<nat>, e: IncludeError) {
    At(g, t, path).Some? && Unrenderable(g, params, At(g, t, path).value) == Some(e)
  }

  ghost predicate Throws(g: Modules, params: seq<Parameter>, t: MoveType, e: IncludeError) {
    exists path :: ThrowsAt(g, params, t, path, e)
  }

  // The walk through one argument list, by position.
  lemma {:induction false} ArgumentsWalked(g: Modules, params: seq<Parameter>, t: MoveType, i: nat)
    requires t.Datatype? && i <= |t.arguments|
    ensures var w := WalkArguments(g, params, t, i);
      && (forall y | y in w.deps :: ArgumentNames(g, params, t, i, y))
      && (w.error.Some? ==> exists k | i <= k < |t.arguments| :: FailsWith(g, params, t, k, w.error))
      && (w.error.None? ==> forall k | i <= k < |t.arguments| :: Included(g, params, t, k, w))
    decreases |t.arguments| - i
  {
    hide WalkType;
    if i < |t.arguments| {
      ArgumentsWalked(g, params, t, i + 1);
      var rest := WalkArguments(g, params, t, i + 1);
      var w := WalkArguments(g, params, t, i);
      forall y | y in w.deps
        ensures ArgumentNames(g, params, t, i, y)
      {
        if y in rest.deps {
          assert ArgumentNames(g, params, t, i + 1, y);
          var k :| i + 1 <= k < |t.arguments| && NamedBy(g, params, t, k, y);
          assert NamedBy(g, params, t, k, y);
        } else {
          assert NamedBy(g, params, t, i, y);
        }
      }
      if w.error.Some? {
        var first := t.arguments[i];
        if rest.error == w.error && (first.phantom || WalkType(g, params, first.argument).error.None?) {
          var k :| i + 1 <= k < |t.arguments| && FailsWith(g, params, t, k, w.error);
          assert FailsWith(g, params, t, k, w.error);
        } else {
          assert FailsWith(g, params, t, i, w.error);
        }
      } else {
        forall k | i <= k < |t.arguments|
          ensures Included(g, params, t, k, w)
        {
          if k > i {
            assert Included(g, params, t, k, rest);
          }
        }
      }
    }
  }

  ghost predicate NamedBy(g: Modules, params: seq<Parameter>, t: MoveType, k: nat, y: TypeId)
    requires t.Datatype? && k < |t.arguments|
  {
    !t.arguments[k].phantom && y in WalkType(g, params, t.arguments[k].argument).deps
  }

  ghost predicate ArgumentNames(g: Modules, params: seq<Parameter>, t: MoveType, i: nat, y: TypeId)
    requires t.Datatype?
  {
    exists k | i <= k < |t.arguments| :: NamedBy(g, params, t, k, y)
  }

  ghost predicate FailsWith(g: Modules, params: seq<Parameter>, t: MoveType, k: nat, e: Option<IncludeError>)
    requires t.Datatype? && k < |t.arguments|
  {
    !t.arguments[k].phantom && WalkType(g, params, t.arguments[k].argument).error == e
  }

  ghost predicate Included(g: Modules, params: seq<Parameter>, t: MoveType, k: nat, w: Walk)
    requires t.Datatype? && k < |t.arguments|
  {
    t.arguments[k].phantom || Within(WalkType(g, params, t.arguments[k].argument), w)
  }

  // The walk b ran to its end as part of a.
  ghost predicate Within(b: Walk, a: Walk) {
    b.error.None? && forall y | y in b.deps :: y in a.deps
  }

  // One step of the walk: what it reports and throws is its own or that of a part.
  lemma WalkStep(g: Modules, params: seq<Parameter>, t: MoveType)
    ensures var w := WalkType(g, params, t);
      && (forall y | y in w.deps :: (IsUser(g, t) && IdOf(t) == y) || exists k: nat :: PartNames(g, params, t, k, y))
      && (IsUser(g, t) ==> IdOf(t) in w.deps)
      && (w.error.Some? ==>
          Unrenderable(g, params, t) == w.error || exists k: nat :: PartFails(g, params, t, k, w.error))
      && (w.error.None? ==>
          && Unrenderable(g, params, t).None?
          && forall k: nat | Part(g, t, k).Some? :: Within(WalkType(g, params, Part(g, t, k).value), w))
  {
    hide WalkArguments;
    BuiltInCases(g, t);
    if t.Datatype? {
      var w := WalkType(g, params, t);
      if IsUser(g, t) {
        UserStep(g, params, t);
      } else if IsOption(g, t) && t.arguments != [] {
        assert w == WalkType(g, params, t.arguments[0].argument);
        assert Part(g, t, 0) == Some(t.arguments[0].argument);
        PartOnly(g, params, t, w);
      }
    } else if t.Reference? {
      PartOnly(g, params, t, WalkType(g, params, t));
    } else if t.Vector? {
      PartOnly(g, params, t, WalkType(g, params, t));
    } else if t.NamedTypeParameter? {
      ParameterNamed(params, t.name);
    }
  }

  ghost predicate PartNames(g: Modules, params: seq<Parameter>, t: MoveType, k: nat, y: TypeId) {
    Part(g, t, k).Some? && y in WalkType(g, params, Part(g, t, k).value).deps
  }

  ghost predicate PartFails(g: Modules, params: seq<Parameter>, t: MoveType, k: nat, e: Option<IncludeError>) {
    Part(g, t, k).Some? && WalkType(g, params, Part(g, t, k).value).error == e
  }

  lemma PartOnly(g: Modules, params: seq<Parameter>, t: MoveType, w: Walk)
    requires Part(g, t, 0).Some? && w == WalkType(g, params, Part(g, t, 0).value)
    ensures forall y | y in w.deps :: exists k: nat :: PartNames(g, params, t, k, y)
    ensures w.error.Some? ==> exists k: nat :: PartFails(g, params, t, k, w.error)
  {
    hide WalkType, Part;
    forall y | y in w.deps
      ensures exists k: nat :: PartNames(g, params, t, k, y)
    {
      assert PartNames(g, params, t, 0, y);
    }
    if w.error.Some? {
      assert PartFails(g, params, t, 0, w.error);
    }
  }

  lemma ParameterNamed(params: seq<Parameter>, name: string)
    ensures (exists i :: 0 <= i < |params| && params[i].name == name) <==> !forall p | p in params :: p.name != name
  {
    if i :| 0 <= i < |params| && params[i].name == name {
      assert params[i] in params;
    }
  }

  lemma BuiltInCases(g: Modules, t: MoveType)
    ensures IsOption(g, t) ==> !IsUser(g, t)
    ensures t.Datatype? ==> (IsOption(g, t) <==>
      g.resolve(t.address) == STDLIB && t.moduleName == "option" && t.typeName == "Option")
    ensures t.Datatype? ==> (!IsUser(g, t) <==>
      || (g.resolve(t.address) == STDLIB && IsText(t))
      || IsOption(g, t)
      || (g.resolve(t.address) == FRAMEWORK && t.moduleName == "object" && (t.typeName == "ID" || t.typeName == "UID")))
    ensures t.Datatype? && g.resolve(t.address) == STDLIB && IsText(t) ==> !IsOption(g, t)
  {
  }

  lemma UserStep(g: Modules, params: seq<Parameter>, t: MoveType)
    requires IsUser(g, t)
    ensures var w := WalkType(g, params, t);
      && (forall y | y in w.deps :: IdOf(t) == y || exists k: nat :: PartNames(g, params, t, k, y))
      && IdOf(t) in w.deps
      && (w.error.Some? ==> exists k: nat :: PartFails(g, params, t, k, w.error))
      && (w.error.None? ==> forall k: nat | Part(g, t, k).Some? :: Within(WalkType(g, params, Part(g, t, k).value), w))
  {
    BuiltInCases(g, t);
    ArgumentsWalked(g, params, t, 0);
    var w, rest := WalkType(g, params, t), WalkArguments(g, params, t, 0);
    assert w == Walk([IdOf(t)] + rest.deps, rest.error);
    hide WalkType, WalkArguments;
    forall y | y in w.deps
      ensures IdOf(t) == y || exists k: nat :: PartNames(g, params, t, k, y)
    {
      if y in rest.deps {
        assert ArgumentNames(g, params, t, 0, y);
        var k :| 0 <= k < |t.arguments| && NamedBy(g, params, t, k, y);
        assert PartNames(g, params, t, k, y);
      }
    }
    if w.error.Some? {
      var k :| 0 <= k < |t.arguments| && FailsWith(g, params, t, k, w.error);
      assert PartFails(g, params, t, k, w.error);
    } else {
      forall k: nat | Part(g, t, k).Some?
        ensures Within(WalkType(g, params, Part(g, t, k).value), w)
      {
        assert Included(g, params, t, k, rest);
      }
    }
  }

  // Everything a walk reports stands at the end of a path.
  lemma {:induction false} ReportedNamed(g: Modules, params: seq<Parameter>, t: MoveType, y: TypeId)
    requires y in WalkType(g, params, t).deps
    ensures Names(g, t, y)
    decreases t
  {
    WalkStep(g, params, t);
    hide WalkType, Part;
    if IsUser(g, t) && IdOf(t) == y {
      assert NamesAt(g, t, [], y);
    } else {
      var k: nat :| PartNames(g, params, t, k, y);
      var part := Part(g, t, k).value;
      ReportedNamed(g, params, part, y);
      var path :| NamesAt(g, part, path, y);
      assert ([k] + path)[1..] == path;
      assert NamesAt(g, t, [k] + path, y);
    }
  }

  // A walk that throws found something that cannot be rendered at the end of a path.
  lemma {:induction false} FailedThrows(g: Modules, params: seq<Parameter>, t: MoveType)
    requires WalkType(g, params, t).error.Some?
    ensures Throws(g, params, t, WalkType(g, params, t).error.value)
    decreases t
  {
    WalkStep(g, params, t);
    hide WalkType, Part, Unrenderable;
    var error := WalkType(g, params, t).error;
    if Unrenderable(g, params, t) == error {
      assert ThrowsAt(g, params, t, [], error.value);
    } else {
      var k: nat :| PartFails(g, params, t, k, error);
      var part := Part(g, t, k).value;
      FailedThrows(g, params, part);
      var path :| ThrowsAt(g, params, part, path, error.value);
      assert ([k] + path)[1..] == path;
      assert ThrowsAt(g, params, t, [k] + path, error.value);
    }
  }

  // A walk that does not throw has been everywhere.
  lemma {:induction false} WalkedPath(g: Modules, params: seq<Parameter>, t: MoveType, path: seq<nat>)
    requires WalkType(g, params, t).error.None? && At(g, t, path).Some?
    ensures Unrenderable(g, params, At(g, t, path).value).None?
    ensures IsUser(g, At(g, t, path).value) ==> IdOf(At(g, t, path).value) in WalkType(g, params, t).deps
    decreases path
  {
    WalkStep(g, params, t);
    hide WalkType, Part, Unrenderable, IsUser;
    if path != [] {
      WalkedPath(g, params, Part(g, t, path[0]).value, path[1..]);
    }
  }

  // A walk throws exactly when a path ends in something that cannot be rendered; if it does not, it
  // reports exactly the datatypes that paths end in.
  lemma WalkExact(g: Modules, params: seq<Parameter>, t: MoveType)
    ensures var w := WalkType(g, params, t);
      && (w.error.Some? <==> exists e :: Throws(g, params, t, e))
      && (w.error.Some? ==> Throws(g, params, t, w.error.value))
      && (forall y | y in w.deps :: Names(g, t, y))
      && (w.error.None? ==> forall y :: y in w.deps <==> Names(g, t, y))
  {
    hide WalkType, At, Unrenderable;
    var w := WalkType(g, params, t);
    forall y | y in w.deps
      ensures Names(g, t, y)
    {
      ReportedNamed(g, params, t, y);
    }
    if w.error.Some? {
      FailedThrows(g, params, t);
    } else {
      forall path | At(g, t, path).Some?
        ensures Unrenderable(g, params, At(g, t, path).value).None?
        ensures IsUser(g, At(g, t, path).value) ==> IdOf(At(g, t, path).value) in w.deps
      {
        WalkedPath(g, params, t, path);
      }
    }
  }

  // ---------- The fields of a type ----------

  // f is a field of the struct or of the enum called x.
  ghost predicate HasField(g: Modules, x: TypeId, s: TypeSummary, f: MoveType) {
    && g.HasBuilder(x)
    && var m := g.summaries[g.Key(x)];
      || (x.name in m.structs && s == m.structs[x.name] && f in s.fields)
      || (x.name in m.enums && s == m.enums[x.name] && f in s.fields)
  }

  // A field of x names y.
  ghost predicate Refers(g: Modules, x: TypeId, y: TypeId) {
    exists s, f :: HasField(g, x, s, f) && Names(g, f, y)
  }

  // Why a type cannot be included: it has no builder, its module does not have it, or a field throws.
  ghost predicate Cause(g: Modules, x: TypeId, e: IncludeError) {
    if !g.HasBuilder(x) then e == BuilderNotFound
    else if !g.Known(x) then e == TypeNotFound
    else exists s, f :: HasField(g, x, s, f) && Throws(g, s.parameters, f, e)
  }

  ghost predicate Bad(g: Modules, x: TypeId) {
    exists e :: Cause(g, x, e)
  }

  ghost predicate FieldsExact(g: Modules, s: TypeSummary, n: nat, w: Walk)
    requires n <= |s.fields|
  {
    && (w.error.Some? ==> exists i | 0 <= i < n :: Throws(g, s.parameters, s.fields[i], w.error.value))
    && (w.error.None? ==> forall i, e | 0 <= i < n :: !Throws(g, s.parameters, s.fields[i], e))
    && (forall y | y in w.deps :: exists i | 0 <= i < n :: Names(g, s.fields[i], y))
    && (w.error.None? ==> forall i, y | 0 <= i < n && Names(g, s.fields[i], y) :: y in w.deps)
  }

  lemma {:induction false} FieldsWalked(g: Modules, s: TypeSummary, n: nat)
    requires n <= |s.fields|
    ensures FieldsExact(g, s, n, WalkFields(g, s, n))
  {
    hide Names, Throws, WalkType;
    if n > 0 {
      FieldsWalked(g, s, n - 1);
      WalkExact(g, s.parameters, s.fields[n - 1]);
    }
  }

  // The walk over the fields of a type throws exactly when the type is bad; if it does not, it
  // reports exactly the types that x refers to.
  lemma BodyExact(g: Modules, x: TypeId)
    requires g.Known(x)
    ensures Body(g, x).error.Some? ==> Cause(g, x, Body(g, x).error.value)
    ensures Body(g, x).error.None? ==> !Bad(g, x)
    ensures forall y | y in Body(g, x).deps :: Refers(g, x, y)
    ensures Body(g, x).error.None? ==> forall y :: y in Body(g, x).deps <==> Refers(g, x, y)
  {
    hide Names, Throws, WalkFields;
    var m := g.summaries[g.Key(x)];
    if x.name in m.structs {
      SummaryExact(g, x, m.structs[x.name]);
    }
    if x.name in m.enums {
      SummaryExact(g, x, m.enums[x.name]);
    }
    hide HasField;
    forall e | Cause(g, x, e)
      ensures Body(g, x).error.Some?
    {
      var s, f :| HasField(g, x, s, f) && Throws(g, s.parameters, f, e);
      HasSummary(g, x, s, f);
    }
    forall y | Refers(g, x, y) && Body(g, x).error.None?
      ensures y in Body(g, x).deps
    {
      var s, f :| HasField(g, x, s, f) && Names(g, f, y);
      HasSummary(g, x, s, f);
    }
  }

  lemma HasSummary(g: Modules, x: TypeId, s: TypeSummary, f: MoveType)
    requires HasField(g, x, s, f)
    ensures f in s.fields
    ensures var m := g.summaries[g.Key(x)];
      (x.name in m.structs && s == m.structs[x.name]) || (x.name in m.enums && s == m.enums[x.name])
  {
  }

  // The walk over the fields of one summary of x.
  lemma SummaryExact(g: Modules, x: TypeId, s: TypeSummary)
    requires forall f | f in s.fields :: HasField(g, x, s, f)
    ensures var w := WalkFields(g, s, |s.fields|);
      && (w.error.Some? ==> exists f :: HasField(g, x, s, f) && Throws(g, s.parameters, f, w.error.value))
      && (forall y | y in w.deps :: Refers(g, x, y))
      && (w.error.None? ==> forall f, e | f in s.fields :: !Throws(g, s.parameters, f, e))
      && (w.error.None? ==> forall f, y | f in s.fields && Names(g, f, y) :: y in w.deps)
  {
    FieldsWalked(g, s, |s.fields|);
    hide Names, Throws, WalkFields, HasField;
    var w := WalkFields(g, s, |s.fields|);
    forall y | y in w.deps
      ensures Refers(g, x, y)
    {
      var i :| 0 <= i < |s.fields| && Names(g, s.fields[i], y);
      assert HasField(g, x, s, s.fields[i]);
    }
    if w.error.Some? {
      var i :| 0 <= i < |s.fields| && Throws(g, s.parameters, s.fields[i], w.error.value);
      assert HasField(g, x, s, s.fields[i]);
    }
  }

  // ---------- Reachability ----------

  ghost predicate IsPath(g: Modules, p: seq<TypeId>) {
    |p| > 0 && forall i | 0 <= i < |p| - 1 :: Refers(g, p[i], p[i + 1])
  }

  // y is x, or x refers to it directly or through other types, by non-phantom references.
  ghost predicate Reaches(g: Modules, x: TypeId, y: TypeId) {
    exists p :: IsPath(g, p) && p[0] == x && p[|p| - 1] == y
  }

  lemma ReachesSelf(g: Modules, x: TypeId)
    ensures Reaches(g, x, x)
  {
    assert IsPath(g, [x]);
  }

  lemma ReachesStep(g: Modules, x: TypeId, y: TypeId, z: TypeId)
    requires Reaches(g, x, y) && Refers(g, y, z)
    ensures Reaches(g, x, z)
  {
    hide Refers;
    var p :| IsPath(g, p) && p[0] == x && p[|p| - 1] == y;
    var q := p + [z];
    forall i | 0 <= i < |q| - 1
      ensures Refers(g, q[i], q[i + 1])
    {
      if i < |p| - 1 {
        assert Refers(g, p[i], p[i + 1]);
      }
    }
    assert IsPath(g, q);
  }

  lemma ReachesTransitive(g: Modules, x: TypeId, y: TypeId, z: TypeId)
    requires Reaches(g, x, y) && Reaches(g, y, z)
    ensures Reaches(g, x, z)
  {
    hide Refers;
    var p :| IsPath(g, p) && p[0] == x && p[|p| - 1] == y;
    var q :| IsPath(g, q) && q[0] == y && q[|q| - 1] == z;
    var r := p + q[1..];
    forall i | 0 <= i < |r| - 1
      ensures Refers(g, r[i], r[i + 1])
    {
      if i < |p| - 1 {
        assert Refers(g, p[i], p[i + 1]);
      } else {
        assert Refers(g, q[i - |p| + 1], q[i - |p| + 2]);
      }
    }
    assert IsPath(g, r);
  }

  // A set closed under references contains everything its members reach.
  lemma {:induction false} ClosedContains(g: Modules, s: set<TypeId>, p: seq<TypeId>)
    requires forall x, y | x in s && Refers(g, x, y) :: y in s
    requires IsPath(g, p) && p[0] in s
    ensures p[|p| - 1] in s
    decreases |p|
  {
    hide Refers;
    if |p| > 1 {
      assert Refers(g, p[0], p[1]);
      var q := p[1..];
      forall i | 0 <= i < |q| - 1
        ensures Refers(g, q[i], q[i + 1])
      {
        assert Refers(g, p[i + 1], p[i + 2]);
      }
      assert IsPath(g, q);
      ClosedContains(g, s, q);
    }
  }

  // ---------- The depth-first inclusion ----------

  // The included types of all builders, and the types in the order they were added to their
  // builder's ordered list.
  datatype State = State(included: set<TypeId>, ordered: seq<TypeId>)

  function Unvisited(g: Modules, s: State): nat {
    |g.AllTypes() - s.included|
  }

  lemma VisitShrinks(g: Modules, s: State, id: TypeId)
    requires g.Known(id) && id !in s.included
    ensures Unvisited(g, State(s.included + {id}, s.ordered)) < Unvisited(g, s)
  {
    assert id in g.AllTypes() by {
      assert g.Key(id) in g.summaries;
    }
    var a, b := g.AllTypes() - (s.included + {id}), g.AllTypes() - s.included;
    assert b == a + {id};
  }

  lemma Shrinks(g: Modules, s: State, t: State)
    requires s.included <= t.included
    ensures Unvisited(g, t) <= Unvisited(g, s)
  {
    SubsetSize(g.AllTypes() - t.included, g.AllTypes() - s.included);
  }

  lemma {:induction false} SubsetSize(a: set<TypeId>, b: set<TypeId>)
    requires a <= b
    ensures |a| <= |b|
  {
    assert b == a + (b - a);
  }

  // includeType on the builder of id, as the callbacks call it. It ends on every graph: each call
  // that goes on has included one more known type.
  function Visit(g: Modules, s: State, id: TypeId): (r: (State, Option<IncludeError>))
    ensures s.included <= r.0.included
    decreases Unvisited(g, s), 0, 0
  {
    if !g.HasBuilder(id) then (s, Some(BuilderNotFound))
    else if id in s.included then (s, None)
    else
      var entered := State(s.included + {id}, s.ordered);
      if !g.Known(id) then (entered, Some(TypeNotFound))
      else
        VisitShrinks(g, s, id);
        var body := Body(g, id);
        var after := VisitAll(g, entered, body.deps);
        if after.1.Some? then after
        else if body.error.Some? then (after.0, body.error)
        else (State(after.0.included, after.0.ordered + [id]), None)
  }

  function VisitAll(g: Modules, s: State, deps: seq<TypeId>): (r: (State, Option<IncludeError>))
    ensures s.included <= r.0.included
    decreases Unvisited(g, s), 1, |deps|
  {
    if deps == [] then (s, None)
    else
      var first := Visit(g, s, deps[0]);
      Shrinks(g, s, first.0);
      if first.1.Some? then first else VisitAll(g, first.0, deps[1..])
  }

  // ---------- What the inclusion keeps ----------

  ghost predicate NoDuplicates(s: seq<TypeId>) {
    forall i, j | 0 <= i < j < |s| :: s[i] != s[j]
  }

  // Entered but not yet added: the types on the call stack.
  ghost predicate OnStack(s: State, x: TypeId) {
    x in s.included && x !in s.ordered
  }

  // A dependency of x that was not added before x leads back to x.
  ghost predicate Placed(g: Modules, before: seq<TypeId>, x: TypeId) {
    forall y | Refers(g, x, y) :: y in before || Reaches(g, y, x)
  }

  // Whatever has been added is included, once, together with its dependencies, after them.
  ghost predicate Good(g: Modules, s: State) {
    && NoDuplicates(s.ordered)
    && (forall x | x in s.ordered :: x in s.included && !Bad(g, x))
    && (forall x, y | x in s.ordered && Refers(g, x, y) :: y in s.included)
    && (forall i | 0 <= i < |s.ordered| :: Placed(g, s.ordered[..i], s.ordered[i]))
  }

  // The outcome of a visit of something reachable from x.
  ghost predicate Visited(g: Modules, s: State, r: (State, Option<IncludeError>), x: TypeId) {
    && (r.1.None? ==>
        && Good(g, r.0)
        && (forall z :: OnStack(r.0, z) <==> OnStack(s, z))
        && (forall y | y in r.0.included :: y in s.included || Reaches(g, x, y)))
    && (r.1.Some? ==> exists b :: Cause(g, b, r.1.value) && Reaches(g, x, b))
  }

  lemma VisitGood(g: Modules, s: State, id: TypeId)
    requires Good(g, s) && forall z | OnStack(s, z) :: Reaches(g, z, id)
    ensures Visited(g, s, Visit(g, s, id), id)
    ensures Visit(g, s, id).1.None? ==> id in Visit(g, s, id).0.included
    decreases Unvisited(g, s), 0, 0
  {
    hide Reaches, Placed, Body, Good, NoDuplicates, Refers;
    ReachesSelf(g, id);
    if !g.HasBuilder(id) {
      assert Cause(g, id, BuilderNotFound);
    } else if id !in s.included {
      var entered := State(s.included + {id}, s.ordered);
      EnteredGood(g, s, id);
      if !g.Known(id) {
        assert Cause(g, id, TypeNotFound);
      } else {
        VisitShrinks(g, s, id);
        var body := Body(g, id);
        var after := VisitAll(g, entered, body.deps);
        assert OnStack(entered, id) by {
          assert id !in s.ordered;
        }
        hide VisitAll, Cause;
        BodyExact(g, id);
        VisitAllGood(g, entered, id, body.deps);
        if after.1.None? && body.error.None? {
          AddedGood(g, s, entered, after.0, id);
        }
      }
    }
  }

  lemma EnteredGood(g: Modules, s: State, id: TypeId)
    requires Good(g, s)
    ensures Good(g, State(s.included + {id}, s.ordered))
    ensures id !in s.included ==> id !in s.ordered
  {
    hide Reaches, Placed, Refers;
  }

  // Adding a type whose dependencies are all included.
  lemma AddedGood(g: Modules, s: State, entered: State, after: State, id: TypeId)
    requires Good(g, s) && id !in s.included && entered == State(s.included + {id}, s.ordered)
    requires Good(g, after) && !Bad(g, id)
    requires forall z | OnStack(entered, z) :: Reaches(g, z, id)
    requires forall z :: OnStack(after, z) <==> OnStack(entered, z)
    requires forall y | Refers(g, id, y) :: y in after.included
    ensures Good(g, State(after.included, after.ordered + [id]))
    ensures forall z :: OnStack(State(after.included, after.ordered + [id]), z) <==> OnStack(s, z)
  {
    hide Reaches, Placed, NoDuplicates, Refers, Bad;
    StackAfter(s, entered, after, id);
    DependenciesPlaced(g, entered, after, id);
    hide OnStack;
    AddedOrder(g, after.ordered, id);
  }

  lemma StackAfter(s: State, entered: State, after: State, id: TypeId)
    requires id !in s.included && entered == State(s.included + {id}, s.ordered)
    requires forall x | x in s.ordered :: x in s.included
    requires forall x | x in after.ordered :: x in after.included
    requires forall z :: OnStack(after, z) <==> OnStack(entered, z)
    ensures id in after.included && id !in after.ordered
    ensures forall z :: OnStack(State(after.included, after.ordered + [id]), z) <==> OnStack(s, z)
  {
    assert OnStack(entered, id);
    forall z
      ensures OnStack(State(after.included, after.ordered + [id]), z) <==> OnStack(s, z)
    {
      assert OnStack(after, z) <==> OnStack(entered, z);
    }
  }

  lemma DependenciesPlaced(g: Modules, entered: State, after: State, id: TypeId)
    requires forall z | OnStack(entered, z) :: Reaches(g, z, id)
    requires forall z :: OnStack(after, z) <==> OnStack(entered, z)
    requires forall y | Refers(g, id, y) :: y in after.included
    ensures Placed(g, after.ordered, id)
  {
    hide Reaches, Refers;
    forall y | Refers(g, id, y)
      ensures y in after.ordered || Reaches(g, y, id)
    {
      assert y in after.included;
      if y !in after.ordered {
        assert OnStack(after, y);
      }
    }
  }

  lemma AddedOrder(g: Modules, ordered: seq<TypeId>, id: TypeId)
    requires NoDuplicates(ordered) && id !in ordered && Placed(g, ordered, id)
    requires forall i | 0 <= i < |ordered| :: Placed(g, ordered[..i], ordered[i])
    ensures NoDuplicates(ordered + [id])
    ensures forall i | 0 <= i < |ordered + [id]| :: Placed(g, (ordered + [id])[..i], (ordered + [id])[i])
  {
    hide Placed;
    var added := ordered + [id];
    forall i | 0 <= i < |added|
      ensures Placed(g, added[..i], added[i])
    {
      if i < |ordered| {
        assert added[..i] == ordered[..i];
      } else {
        assert added[..i] == ordered;
      }
    }
  }

  // The dependencies of x, visited in turn while x is on the stack.
  lemma VisitAllGood(g: Modules, s: State, x: TypeId, deps: seq<TypeId>)
    requires Good(g, s) && forall z | OnStack(s, z) :: Reaches(g, z, x)
    requires forall d | d in deps :: Refers(g, x, d)
    ensures Visited(g, s, VisitAll(g, s, deps), x)
    ensures VisitAll(g, s, deps).1.None? ==> forall d | d in deps :: d in VisitAll(g, s, deps).0.included
    decreases Unvisited(g, s), 1, |deps|
  {
    hide Reaches, Placed, Body, Good, NoDuplicates, Visit, Refers, Cause;
    if deps != [] {
      var d := deps[0];
      forall z | OnStack(s, z)
        ensures Reaches(g, z, d)
      {
        ReachesStep(g, z, x, d);
      }
      var first := Visit(g, s, d);
      Shrinks(g, s, first.0);
      VisitGood(g, s, d);
      ReachesSelf(g, x);
      ReachesStep(g, x, x, d);
      hide Refers;
      VisitedFrom(g, s, first, x, d);
      if first.1.None? {
        VisitAllGood(g, first.0, x, deps[1..]);
        VisitedThen(g, s, first, VisitAll(g, first.0, deps[1..]), x);
      }
    }
  }

  lemma VisitedFrom(g: Modules, s: State, r: (State, Option<IncludeError>), x: TypeId, d: TypeId)
    requires Visited(g, s, r, d) && Reaches(g, x, d)
    ensures Visited(g, s, r, x)
  {
    hide Reaches, Good, Cause;
    if r.1.None? {
      forall y | y in r.0.included
        ensures y in s.included || Reaches(g, x, y)
      {
        if y !in s.included {
          ReachesTransitive(g, x, d, y);
        }
      }
    } else {
      var b :| Cause(g, b, r.1.value) && Reaches(g, d, b);
      ReachesTransitive(g, x, d, b);
    }
  }

  lemma VisitedThen(g: Modules, s: State, first: (State, Option<IncludeError>), last: (State, Option<IncludeError>),
                    x: TypeId)
    requires first.1.None? && Visited(g, s, first, x) && Visited(g, first.0, last, x)
    ensures Visited(g, s, last, x)
  {
    hide Reaches, Good, Cause;
    forall z
      ensures OnStack(first.0, z) <==> OnStack(s, z)
    {
    }
  }

  // ---------- includeTypes ----------

  ghost predicate ReachedFrom(g: Modules, ids: seq<TypeId>, y: TypeId) {
    exists i :: 0 <= i < |ids| && Reaches(g, ids[i], y)
  }

  ghost predicate StackEmpty(s: State) {
    forall z :: !OnStack(s, z)
  }

  // The requested types, one after another, from any finished state.
  lemma EachGood(g: Modules, s: State, ids: seq<TypeId>)
    requires Good(g, s) && StackEmpty(s)
    ensures var r := VisitAll(g, s, ids);
      && (r.1.None? ==>
          && Good(g, r.0) && StackEmpty(r.0)
          && (forall d | d in ids :: d in r.0.included)
          && (forall y | y in r.0.included :: y in s.included || ReachedFrom(g, ids, y)))
      && (r.1.Some? ==> exists b :: Cause(g, b, r.1.value) && ReachedFrom(g, ids, b))
    decreases |ids|
  {
    hide Reaches, Placed, Body, Good, NoDuplicates, Visit, Cause;
    if ids != [] {
      var first := Visit(g, s, ids[0]);
      VisitGood(g, s, ids[0]);
      var rest := ids[1..];
      if first.1.None? {
        assert StackEmpty(first.0);
        EachGood(g, first.0, rest);
        var r := VisitAll(g, first.0, rest);
        forall y | ReachedFrom(g, rest, y)
          ensures ReachedFrom(g, ids, y)
        {
          var i :| 0 <= i < |rest| && Reaches(g, rest[i], y);
          assert ids[i + 1] == rest[i];
        }
      }
    }
  }

  // From nothing: the inclusion throws exactly when a requested type reaches a bad one. If it does
  // not, the included types are exactly those reached through non-phantom references, each is
  // added once, and every dependency that does not lead back to its user is added before it.
  lemma IncludeExact(g: Modules, ids: seq<TypeId>)
    ensures var r := VisitAll(g, State({}, []), ids);
      && (r.1.None? <==> forall y | ReachedFrom(g, ids, y) :: !Bad(g, y))
      && (r.1.Some? ==> exists b :: Cause(g, b, r.1.value) && ReachedFrom(g, ids, b))
      && (r.1.None? ==>
          && (forall y :: y in r.0.included <==> ReachedFrom(g, ids, y))
          && (forall y :: y in r.0.ordered <==> y in r.0.included)
          && NoDuplicates(r.0.ordered)
          && (forall i | 0 <= i < |r.0.ordered| :: Placed(g, r.0.ordered[..i], r.0.ordered[i])))
  {
    hide Reaches, Placed, Body, NoDuplicates, Visit, VisitAll, Cause, Refers;
    var s := State({}, []);
    var r := VisitAll(g, s, ids);
    EmptyGood(g);
    EachGood(g, s, ids);
    if r.1.None? {
      forall y
        ensures y in r.0.ordered <==> y in r.0.included
      {
        assert !OnStack(r.0, y);
      }
      forall y | ReachedFrom(g, ids, y)
        ensures y in r.0.included
      {
        var i :| 0 <= i < |ids| && Reaches(g, ids[i], y);
        ReachedIncluded(g, r.0.included, ids[i], y);
      }
    }
  }

  lemma EmptyGood(g: Modules)
    ensures Good(g, State({}, [])) && StackEmpty(State({}, []))
  {
  }

  lemma ReachedIncluded(g: Modules, included: set<TypeId>, x: TypeId, y: TypeId)
    requires forall a, b | a in included && Refers(g, a, b) :: b in included
    requires x in included && Reaches(g, x, y)
    ensures y in included
  {
    hide Refers;
    var p :| IsPath(g, p) && p[0] == x && p[|p| - 1] == y;
    ClosedContains(g, included, p);
  }

  ghost predicate Before<T>(list: seq<T>, x: T, y: T) {
    exists a, b :: 0 <= a < b < |list| && list[a] == x && list[b] == y
  }

  // No type leads back to one that refers to it.
  ghost predicate Acyclic(g: Modules) {
    forall a, b | Refers(g, a, b) :: !Reaches(g, b, a)
  }

  // On acyclic references every dependency of an included type is added before it.
  lemma AcyclicOrder(g: Modules, ids: seq<TypeId>, x: TypeId, y: TypeId)
    requires Acyclic(g) && VisitAll(g, State({}, []), ids).1.None?
    requires ReachedFrom(g, ids, x) && Refers(g, x, y)
    ensures Before(VisitAll(g, State({}, []), ids).0.ordered, y, x)
  {
    IncludeExact(g, ids);
    var ordered := VisitAll(g, State({}, []), ids).0.ordered;
    hide Reaches, ReachedFrom, VisitAll, Refers, NoDuplicates;
    assert x in ordered;
    var i :| 0 <= i < |ordered| && ordered[i] == x;
    assert y in ordered[..i];
    var j :| 0 <= j < i && ordered[..i][j] == y;
    assert ordered[j] == y;
  }

  // ---------- The builders ----------

  // The ordered list of one builder.
  function Project(ordered: seq<TypeId>, key: (string, string)): seq<string> {
    if ordered == [] then []
    else
      var last := ordered[|ordered| - 1];
      Project(ordered[..|ordered| - 1], key) + if (last.address, last.moduleName) == key then [last.name] else []
  }

  // The fields of all builders, by module.
  class ModuleBuilders {
    const g: Modules
    var includedTypes: map<(string, string), set<string>>
    var orderedTypes: map<(string, string), seq<string>>
    ghost var state: State

    ghost predicate Valid()
      reads this
    {
      && includedTypes.Keys == orderedTypes.Keys == g.summaries.Keys
      && (forall k, n | k in includedTypes :: n in includedTypes[k] <==> TypeId(k.0, k.1, n) in state.included)
      && (forall k | k in orderedTypes :: orderedTypes[k] == Project(state.ordered, k))
    }

    constructor (g: Modules)
      ensures Valid() && this.g == g && state == State({}, [])
    {
      this.g := g;
      includedTypes := map k | k in g.summaries.Keys :: {};
      orderedTypes := map k | k in g.summaries.Keys :: [];
      state := State({}, []);
    }

    method IncludeType(id: TypeId) returns (error: Option<IncludeError>)
      requires Valid()
      modifies this
      ensures Valid() && (state, error) == Visit(g, old(state), id)
      decreases Unvisited(g, state), 0, 0
    {
      hide Body, Project;
      if !g.HasBuilder(id) {
        return Some(BuilderNotFound);
      }
      var key := g.Key(id);
      if id.name in includedTypes[key] {
        return None;
      }
      Enter(id);
      hide Valid;
      if !g.Known(id) {
        return Some(TypeNotFound);
      }
      VisitShrinks(g, old(state), id);
      var body := Body(g, id);
      error := IncludeAll(body.deps);
      if error.Some? {
        return error;
      }
      if body.error.Some? {
        return body.error;
      }
      Push(id);
      return None;
    }

    // #includedTypes.add.
    method Enter(id: TypeId)
      requires Valid() && g.HasBuilder(id)
      modifies this
      ensures Valid() && state == State(old(state).included + {id}, old(state).ordered)
    {
      hide Project;
      var key := g.Key(id);
      includedTypes := includedTypes[key := includedTypes[key] + {id.name}];
      state := State(state.included + {id}, state.ordered);
    }

    // #orderedTypes.push.
    method Push(id: TypeId)
      requires Valid() && g.HasBuilder(id)
      modifies this
      ensures Valid() && state == State(old(state).included, old(state).ordered + [id])
    {
      hide Project;
      var key := g.Key(id);
      Pushed(state.ordered, id);
      orderedTypes := orderedTypes[key := orderedTypes[key] + [id.name]];
      state := State(state.included, state.ordered + [id]);
    }

    // The callbacks of one walk, or the loop of includeTypes.
    method IncludeAll(ids: seq<TypeId>) returns (error: Option<IncludeError>)
      requires Valid()
      modifies this
      ensures Valid() && (state, error) == VisitAll(g, old(state), ids)
      decreases Unvisited(g, state), 1, |ids|
    {
      hide Visit, Project;
      if ids == [] {
        return None;
      }
      error := IncludeType(ids[0]);
      if error.Some? {
        return error;
      }
      Shrinks(g, old(state), state);
      error := IncludeAll(ids[1..]);
    }
  }

  lemma Pushed(ordered: seq<TypeId>, id: TypeId)
    ensures forall k: (string, string) ::
      Project(ordered + [id], k) == Project(ordered, k) + if (id.address, id.moduleName) == k then [id.name] else []
  {
    assert (ordered + [id])[..|ordered|] == ordered;
  }

  // A builder's list keeps the common order: types of one module that were added one before the
  // other are listed so.
  lemma {:induction false} ProjectOrder(ordered: seq<TypeId>, i: nat, j: nat, key: (string, string))
    requires i < j < |ordered|
    requires (ordered[i].address, ordered[i].moduleName) == key == (ordered[j].address, ordered[j].moduleName)
    ensures Before(Project(ordered, key), ordered[i].name, ordered[j].name)
  {
    var n := |ordered| - 1;
    var front := ordered[..n];
    var list, all := Project(front, key), Project(ordered, key);
    if j < n {
      ProjectOrder(front, i, j, key);
      var a, b :| 0 <= a < b < |list| && list[a] == front[i].name && list[b] == front[j].name;
      assert all[a] == ordered[i].name && all[b] == ordered[j].name;
    } else {
      ProjectMember(front, i, key);
      var a :| 0 <= a < |list| && list[a] == front[i].name;
      assert all[a] == ordered[i].name && all[|list|] == ordered[j].name;
    }
  }

  lemma {:induction false} ProjectMember(ordered: seq<TypeId>, i: nat, key: (string, string))
    requires i < |ordered| && (ordered[i].address, ordered[i].moduleName) == key
    ensures exists a :: 0 <= a < |Project(ordered, key)| && Project(ordered, key)[a] == ordered[i].name
  {
    var n := |ordered| - 1;
    var front := ordered[..n];
    if i < n {
      ProjectMember(front, i, key);
      var a :| 0 <= a < |Project(front, key)| && Project(front, key)[a] == front[i].name;
      assert Project(ordered, key)[a] == ordered[i].name;
    } else {
      assert Project(ordered, key)[|Project(front, key)|] == ordered[i].name;
    }
  }

  lemma {:induction false} ProjectIn(ordered: seq<TypeId>, key: (string, string), name: string)
    ensures name in Project(ordered, key) <==> TypeId(key.0, key.1, name) in ordered
  {
    if ordered != [] {
      var front, last := ordered[..|ordered| - 1], ordered[|ordered| - 1];
      ProjectIn(front, key, name);
      assert ordered == front + [last];
    }
  }

  ghost predicate Unique<T>(list: seq<T>) {
    forall i, j | 0 <= i < j < |list| :: list[i] != list[j]
  }

  lemma {:induction false} ProjectUnique(ordered: seq<TypeId>, key: (string, string))
    requires NoDuplicates(ordered)
    ensures Unique(Project(ordered, key))
  {
    if ordered != [] {
      var front, last := ordered[..|ordered| - 1], ordered[|ordered| - 1];
      ProjectUnique(front, key);
      ProjectIn(front, key, last.name);
      assert last !in front;
    }
  }

  // What the builders hold after includeTypes: when nothing was thrown, each builder lists exactly
  // the types of its module that the requested ones reach, each once, and on acyclic references
  // every dependency in the same module before its user.
  lemma BuilderLists(b: ModuleBuilders, ids: seq<TypeId>, key: (string, string))
    requires b.Valid() && (b.state, None) == VisitAll(b.g, State({}, []), ids) && key in b.g.summaries
    ensures Unique(b.orderedTypes[key])
    ensures forall n :: n in b.orderedTypes[key] <==> ReachedFrom(b.g, ids, TypeId(key.0, key.1, n))
    ensures Acyclic(b.g) ==>
      forall x, y | ReachedFrom(b.g, ids, x) && Refers(b.g, x, y) && b.g.Key(x) == key == b.g.Key(y) ::
        Before(b.orderedTypes[key], y.name, x.name)
  {
    var g, ordered := b.g, b.state.ordered;
    hide Reaches, ReachedFrom, VisitAll, Refers, Placed, Before, Project, Acyclic, NoDuplicates, Unique;
    IncludeExact(g, ids);
    ProjectUnique(ordered, key);
    forall n
      ensures n in b.orderedTypes[key] <==> ReachedFrom(g, ids, TypeId(key.0, key.1, n))
    {
      ProjectIn(ordered, key, n);
    }
    if Acyclic(g) {
      forall x, y | ReachedFrom(g, ids, x) && Refers(g, x, y) && g.Key(x) == key == g.Key(y)
        ensures Before(b.orderedTypes[key], y.name, x.name)
      {
        AcyclicOrder(g, ids, x, y);
        BeforeProjected(ordered, key, y, x);
      }
    }
  }

  lemma BeforeProjected(ordered: seq<TypeId>, key: (string, string), y: TypeId, x: TypeId)
    requires Before(ordered, y, x) && (x.address, x.moduleName) == key == (y.address, y.moduleName)
    ensures Before(Project(ordered, key), y.name, x.name)
  {
    var i, j :| 0 <= i < j < |ordered| && ordered[i] == y && ordered[j] == x;
    ProjectOrder(ordered, i, j, key);
  }
}
