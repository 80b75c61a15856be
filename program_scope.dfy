// The program-wide scope of CPAchecker's C front end (CProgramScope): a
// scope filled once from every declaration of a parsed program, which later
// resolves the names of variables, functions and types when single
// statements are parsed against that program.  Declarations and types are
// values; a type refers to other types by their index in a type arena.
module ProgramScopes {
  import opened Wrappers
  import opened Strings
  import Sets

  // ---------------------------------------------------------------------
  // Declarations and their names
  // ---------------------------------------------------------------------

  /** Name, original (source) name and qualified name of a declaration or a complex type. */
  datatype Names = Names(name: string, origName: string, qualifiedName: string)

  datatype DeclKind = VariableDecl | FunctionDecl | ComplexTypeDecl | TypeDefDecl | OtherDecl

  /**
   * A simple declaration.  `names` is None when the declaration has neither
   * a name nor a qualified name; `typeNames` are the names of the declared
   * complex type (complex-type declarations only, None when the type or its
   * names are missing); `declType` is the declared type (an arena index);
   * `rest` stands for the remaining attributes (file location, storage
   * class, ...) that take part in equality.
   */
  datatype Decl = Decl(kind: DeclKind, names: Option<Names>, typeNames: Option<Names>,
                       declType: nat, initializer: Option<nat>, rest: nat)

  /** The HAS_NAME filter: a name of its own, or a named complex type. */
  predicate HasName(d: Decl) {
    d.names.Some? || (d.kind == ComplexTypeDecl && d.typeNames.Some?)
  }

  /** The names a declaration that passes HAS_NAME is known by (GET_NAME reads `.name`). */
  function NamesOf(d: Decl): Names
    requires HasName(d)
  {
    if d.names.Some? then d.names.value else d.typeNames.value
  }

  function Name(d: Decl): string
    requires HasName(d)
  {
    NamesOf(d).name
  }

  /** What the assertion in the original-name rewriting demands. */
  predicate Rewritable(n: Names) {
    n.name == n.origName || EndsWith(n.qualifiedName, n.name)
  }

  /**
   * GET_ORIGINAL_QUALIFIED_NAME on a set of names: the qualified name with
   * its trailing (possibly renamed) name replaced by the original name.
   */
  function OriginalQualifiedName(n: Names): (r: string)
    requires Rewritable(n)
    ensures n.name == n.origName ==> r == n.qualifiedName
    ensures n.name != n.origName ==>
      EndsWith(r, n.origName) && |r| + |n.name| == |n.qualifiedName| + |n.origName|
      && r[..|r| - |n.origName|] == n.qualifiedName[..|n.qualifiedName| - |n.name|]
  {
    if n.name == n.origName then n.qualifiedName
    else n.qualifiedName[..|n.qualifiedName| - |n.name|] + n.origName
  }

  /** Putting the (renamed) name back in place of the original name gives the qualified name again. */
  lemma OriginalQualifiedNameRoundTrip(n: Names)
    requires EndsWith(n.qualifiedName, n.name)
    ensures var r := OriginalQualifiedName(n);
      |n.origName| <= |r| && r[..|r| - |n.origName|] + n.name == n.qualifiedName
  {
    var r := OriginalQualifiedName(n);
    if n.name != n.origName {
      var q := n.qualifiedName;
      assert q == q[..|q| - |n.name|] + q[|q| - |n.name|..];
    } else {
      var q := n.qualifiedName;
      assert q == q[..|q| - |n.name|] + q[|q| - |n.name|..];
    }
  }

  predicate WellNamed(d: Decl) {
    HasName(d) && Rewritable(NamesOf(d))
  }

  function DeclOriginalName(d: Decl): string
    requires WellNamed(d)
  {
    OriginalQualifiedName(NamesOf(d))
  }

  /** A variable declaration without its initializer; any other declaration unchanged. */
  function StripInitializer(d: Decl): Decl {
    if d.kind == VariableDecl then d.(initializer := None) else d
  }

  // ---------------------------------------------------------------------
  // Multimaps built by indexing a sequence
  // ---------------------------------------------------------------------

  function Filter<T(==,!new)>(s: seq<T>, p: T -> bool): (r: seq<T>)
    ensures |r| <= |s|
    ensures forall x :: x in r <==> x in s && p(x)
  {
    if s == [] then [] else if p(s[0]) then [s[0]] + Filter(s[1..], p) else Filter(s[1..], p)
  }

  /** The values indexed under `k`, in insertion order (the list a Guava index returns). */
  function Group<V(==,!new)>(entries: seq<(string, V)>, k: string): (g: seq<V>)
    ensures |g| <= |entries|
    ensures forall v :: v in g <==> (k, v) in entries
    ensures forall i | 0 <= i < |g| :: (k, g[i]) in entries
  {
    if entries == [] then []
    else if entries[0].0 == k then [entries[0].1] + Group(entries[1..], k)
    else Group(entries[1..], k)
  }

  function Keys<V(==,!new)>(entries: seq<(string, V)>): set<string> {
    set e | e in entries :: e.0
  }

  lemma KeysGroup<V(!new)>(entries: seq<(string, V)>, k: string)
    ensures k in Keys(entries) <==> |Group(entries, k)| > 0
  {
    if k in Keys(entries) {
      var e :| e in entries && e.0 == k;
      assert (k, e.1) == e;
      assert e.1 in Group(entries, k);
    }
  }

  /** The first value under `k` comes from the first entry with key `k`. */
  lemma {:induction false} GroupFirst<V(!new)>(entries: seq<(string, V)>, k: string)
    requires |Group(entries, k)| > 0
    ensures exists i :: 0 <= i < |entries| && entries[i] == (k, Group(entries, k)[0])
                        && forall j :: 0 <= j < i ==> entries[j].0 != k
  {
    if entries[0].0 == k {
      assert entries[0] == (k, Group(entries, k)[0]);
    } else {
      GroupFirst(entries[1..], k);
      var i :| 0 <= i < |entries[1..]| && entries[1..][i] == (k, Group(entries[1..], k)[0])
               && forall j :: 0 <= j < i ==> entries[1..][j].0 != k;
      assert entries[i + 1] == entries[1..][i];
      forall j | 0 <= j < i + 1 ensures entries[j].0 != k {
        if j > 0 {
          assert entries[j] == entries[1..][j - 1];
        }
      }
    }
  }

  /** Index declarations by GET_ORIGINAL_QUALIFIED_NAME. */
  function IndexByOriginalName(ds: seq<Decl>): (r: seq<(string, Decl)>)
    requires forall d | d in ds :: WellNamed(d)
    ensures |r| == |ds|
    ensures forall i | 0 <= i < |ds| :: r[i] == (DeclOriginalName(ds[i]), ds[i])
  {
    seq(|ds|, i requires 0 <= i < |ds| => (DeclOriginalName(ds[i]), ds[i]))
  }

  // ---------------------------------------------------------------------
  // Qualified and unique simple declarations
  // ---------------------------------------------------------------------

  function Stripped(g: seq<Decl>): set<Decl> {
    set d | d in g :: StripInitializer(d)
  }

  /**
   * Specification of extractQualifiedDeclarations: a qualified name keeps the
   * first of its declarations when all of them agree once initializers are
   * ignored.
   */
  function QualifiedDeclarations(entries: seq<(string, Decl)>): (r: map<string, Decl>)
    ensures forall k | k in r :: (k, r[k]) in entries
  {
    map k | k in Keys(entries) && |Stripped(Group(entries, k))| == 1 ::
      (KeysGroup(entries, k); Group(entries, k)[0])
  }

  method ExtractQualifiedDeclarations(entries: seq<(string, Decl)>) returns (r: map<string, Decl>)
    ensures r == QualifiedDeclarations(entries)
  {
    r := map[];
    var todo := Keys(entries);
    while todo != {}
      invariant todo <= Keys(entries)
      invariant forall k :: k in r <==> k in Keys(entries) && k !in todo && |Stripped(Group(entries, k))| == 1
      invariant forall k | k in r :: |Group(entries, k)| > 0 && r[k] == Group(entries, k)[0]
      decreases |todo|
    {
      var k :| k in todo;
      var declarations := Group(entries, k);
      var duplicateFree := Stripped(declarations);
      if |duplicateFree| == 1 {
        r := r[k := declarations[0]];
      }
      todo := todo - {k};
    }
  }

  /** A qualified name is kept iff its declarations coincide up to initializers; the kept one is the first. */
  lemma QualifiedDeclarationsMeaning(entries: seq<(string, Decl)>, k: string)
    ensures k in QualifiedDeclarations(entries) <==>
      (exists d :: (k, d) in entries)
      && forall d1, d2 :: (k, d1) in entries && (k, d2) in entries ==> StripInitializer(d1) == StripInitializer(d2)
    ensures k in QualifiedDeclarations(entries) ==>
      exists i :: 0 <= i < |entries| && entries[i] == (k, QualifiedDeclarations(entries)[k])
                  && forall j :: 0 <= j < i ==> entries[j].0 != k
  {
    var g := Group(entries, k);
    var st := Stripped(g);
    KeysGroup(entries, k);
    Sets.CardOne(st);
    var agree := forall d1, d2 :: (k, d1) in entries && (k, d2) in entries ==> StripInitializer(d1) == StripInitializer(d2);
    if exists d :: (k, d) in entries {
      var d :| (k, d) in entries;
      assert d in g;
      assert StripInitializer(d) in st;
      assert k in Keys(entries);
      if agree {
        forall x, y | x in st && y in st ensures x == y {
          var d1 :| d1 in g && x == StripInitializer(d1);
          var d2 :| d2 in g && y == StripInitializer(d2);
        }
      }
      if |st| == 1 {
        forall d1, d2 | (k, d1) in entries && (k, d2) in entries
          ensures StripInitializer(d1) == StripInitializer(d2)
        {
          assert d1 in g && d2 in g;
          assert StripInitializer(d1) in st && StripInitializer(d2) in st;
        }
      }
    } else {
      assert g == [];
    }
    if k in QualifiedDeclarations(entries) {
      GroupFirst(entries, k);
    }
  }

  function KeysNamed(qd: map<string, Decl>, n: string): set<string>
    requires forall k | k in qd :: HasName(qd[k])
  {
    set k | k in qd && Name(qd[k]) == n
  }

  /**
   * extractUniqueSimpleDeclarations: a simple name maps to a declaration iff
   * exactly one qualified name holds a declaration of that name, and then
   * to that declaration.
   */
  function UniqueSimpleDeclarations(qd: map<string, Decl>): (r: map<string, Decl>)
    requires forall k | k in qd :: HasName(qd[k])
    ensures forall n :: n in r <==> |KeysNamed(qd, n)| == 1
    ensures forall n, k :: n in r && k in qd && Name(qd[k]) == n ==> r[n] == qd[k]
  {
    var names := set k | k in qd :: Name(qd[k]);
    var r := map n | n in names && |KeysNamed(qd, n)| == 1 :: qd[Sets.OnlyElement(KeysNamed(qd, n))];
    assert forall n :: |KeysNamed(qd, n)| == 1 ==> n in names by {
      forall n | |KeysNamed(qd, n)| == 1 ensures n in names {
        var k := Sets.OnlyElement(KeysNamed(qd, n));
        assert k in KeysNamed(qd, n);
      }
    }
    assert forall n, k :: n in r && k in qd && Name(qd[k]) == n ==> r[n] == qd[k] by {
      forall n, k | n in r && k in qd && Name(qd[k]) == n ensures r[n] == qd[k] {
        assert k in KeysNamed(qd, n);
      }
    }
    r
  }

  // ---------------------------------------------------------------------
  // Types
  // ---------------------------------------------------------------------

  /**
   * A C type: composite (struct/union) types list their members' types,
   * an elaborated type refers to its real type once that is known, enums
   * and all other types are opaque.
   */
  datatype CType =
    | Composite(qualifiedName: string, members: seq<nat>)
    | Elaborated(qualifiedName: string, realType: Option<nat>)
    | Enumeration(qualifiedName: string)
    | OtherType

  /** CComplexType: composite, elaborated and enum types. */
  predicate IsComplex(t: CType) {
    !t.OtherType?
  }

  /**
   * Members are in the arena; an elaborated type was completed by a type
   * created before it, so chains of elaborated types end.
   */
  predicate ValidTypes(arena: seq<CType>) {
    (forall i, m :: 0 <= i < |arena| && arena[i].Composite? && m in arena[i].members ==> m < |arena|)
    && (forall i :: 0 <= i < |arena| && arena[i].Elaborated? && arena[i].realType.Some? ==>
          arena[i].realType.value < i)
  }

  /** The type an elaborated type stands for, following the chain; None for an incomplete one. */
  function Resolved(arena: seq<CType>, t: nat): (r: Option<nat>)
    requires ValidTypes(arena) && t < |arena|
    ensures r.Some? ==> r.value < |arena| && !arena[r.value].Elaborated?
    ensures !arena[t].Elaborated? ==> r == Some(t)
    decreases t
  {
    if !arena[t].Elaborated? then Some(t)
    else if arena[t].realType.None? then None
    else Resolved(arena, arena[t].realType.value)
  }

  /** resolveElaboratedTypeForEqualityCheck. */
  method ResolveElaboratedType(arena: seq<CType>, t: nat) returns (r: Option<nat>)
    requires ValidTypes(arena) && t < |arena|
    ensures r == Resolved(arena, t)
  {
    r := Some(t);
    while r.Some? && arena[r.value].Elaborated?
      invariant r.Some? ==> r.value < |arena| && Resolved(arena, r.value) == Resolved(arena, t)
      invariant r.None? ==> Resolved(arena, t) == None
      decreases if r.Some? then r.value + 1 else 0
    {
      r := arena[r.value].realType;
    }
  }

  /** Resolving is idempotent: a resolved type resolves to itself. */
  lemma ResolvedIdempotent(arena: seq<CType>, t: nat)
    requires ValidTypes(arena) && t < |arena| && Resolved(arena, t).Some?
    ensures Resolved(arena, Resolved(arena, t).value) == Resolved(arena, t)
  {
  }

  // ---------------------------------------------------------------------
  // Storing a type only if it is unique
  // ---------------------------------------------------------------------

  predicate InArena(arena: seq<CType>, values: seq<nat>) {
    forall i | 0 <= i < |values| :: values[i] < |arena|
  }

  /** Every value resolves to a type `same` considers equal to the first value's. */
  predicate AllSame(arena: seq<CType>, same: (Option<nat>, Option<nat>) -> bool, values: seq<nat>)
    requires ValidTypes(arena) && InArena(arena, values) && |values| > 0
  {
    forall i | 1 <= i < |values| :: same(Resolved(arena, values[0]), Resolved(arena, values[i]))
  }

  /** The first elaborated type among the values, if any. */
  function FirstElaborated(arena: seq<CType>, values: seq<nat>): (r: Option<nat>)
    requires InArena(arena, values)
    ensures r.Some? ==> r.value in values && arena[r.value].Elaborated?
    ensures r.None? <==> forall v | v in values :: !arena[v].Elaborated?
  {
    if values == [] then None
    else if arena[values[0]].Elaborated? then Some(values[0])
    else FirstElaborated(arena, values[1..])
  }

  /** The type putIfUnique records: an elaborated one if there is one, else the first. */
  function Preferred(arena: seq<CType>, values: seq<nat>): (r: nat)
    requires InArena(arena, values) && |values| > 0
    ensures r in values
    ensures arena[r].Elaborated? <==> exists v | v in values :: arena[v].Elaborated?
    ensures !arena[r].Elaborated? ==> r == values[0]
  {
    var e := FirstElaborated(arena, values);
    if e.Some? then e.value else values[0]
  }

  /** The preferred elaborated type is the first one: every value before it is not elaborated. */
  lemma {:induction false} PreferredIsFirst(arena: seq<CType>, values: seq<nat>)
    requires InArena(arena, values) && |values| > 0
    ensures exists i :: 0 <= i < |values| && values[i] == Preferred(arena, values)
                        && forall j :: 0 <= j < i ==> !arena[values[j]].Elaborated?
  {
    if arena[values[0]].Elaborated? || FirstElaborated(arena, values).None? {
      assert values[0] == Preferred(arena, values);
    } else {
      var tail := values[1..];
      assert InArena(arena, tail);
      PreferredIsFirst(arena, tail);
      assert Preferred(arena, tail) == Preferred(arena, values);
      var i :| 0 <= i < |tail| && tail[i] == Preferred(arena, tail)
               && forall j :: 0 <= j < i ==> !arena[tail[j]].Elaborated?;
      assert values[i + 1] == tail[i];
      forall j | 0 <= j < i + 1 ensures !arena[values[j]].Elaborated? {
        if j > 0 {
          assert values[j] == tail[j - 1];
        }
      }
    }
  }

  /**
   * putIfUnique: `same` is the type comparison (the equality check below);
   * nothing is stored for no values or values that differ after resolving.
   */
  method PutIfUnique(arena: seq<CType>, same: (Option<nat>, Option<nat>) -> bool,
                     target: map<string, nat>, name: string, values: seq<nat>)
    returns (result: map<string, nat>)
    requires ValidTypes(arena) && InArena(arena, values)
    ensures |values| == 0 ==> result == target
    ensures |values| > 0 && !AllSame(arena, same, values) ==> result == target
    ensures |values| > 0 && AllSame(arena, same, values) ==> result == target[name := Preferred(arena, values)]
  {
    result := target;
    if |values| == 0 {
      return;
    }
    var firstType := values[0];
    var firstCheckType := ResolveElaboratedType(arena, firstType);
    var duplicateFound := false;
    var i := 1;
    while i < |values| && !duplicateFound
      invariant 1 <= i <= |values|
      invariant !duplicateFound <==> forall j | 1 <= j < i :: same(firstCheckType, Resolved(arena, values[j]))
    {
      var next := ResolveElaboratedType(arena, values[i]);
      if !same(firstCheckType, next) {
        duplicateFound := true;
      }
      i := i + 1;
    }
    if !duplicateFound {
      var j := 0;
      while j < |values|
        invariant 0 <= j <= |values|
        invariant FirstElaborated(arena, values) == FirstElaborated(arena, values[j..])
      {
        assert values[j..][1..] == values[j + 1..];
        if arena[values[j]].Elaborated? {
          result := target[name := values[j]];
          return;
        }
        j := j + 1;
      }
      result := target[name := firstType];
    }
  }

  lemma GroupInArena(arena: seq<CType>, entries: seq<(string, nat)>, k: string)
    requires forall e | e in entries :: e.1 < |arena|
    ensures InArena(arena, Group(entries, k))
  {
    var g := Group(entries, k);
    forall i | 0 <= i < |g| ensures g[i] < |arena| {
      assert g[i] in g;
      assert (k, g[i]) in entries;
    }
  }

  /** Specification of extractTypes and extractTypeDefs: putIfUnique on every group. */
  function UniqueTable(arena: seq<CType>, same: (Option<nat>, Option<nat>) -> bool,
                       entries: seq<(string, nat)>): (r: map<string, nat>)
    requires ValidTypes(arena) && forall e | e in entries :: e.1 < |arena|
    ensures forall k | k in r :: (k, r[k]) in entries
  {
    map k | k in Keys(entries)
            && (KeysGroup(entries, k); GroupInArena(arena, entries, k); AllSame(arena, same, Group(entries, k))) ::
      (KeysGroup(entries, k); GroupInArena(arena, entries, k); Preferred(arena, Group(entries, k)))
  }

  method ExtractUnique(arena: seq<CType>, same: (Option<nat>, Option<nat>) -> bool,
                       entries: seq<(string, nat)>) returns (r: map<string, nat>)
    requires ValidTypes(arena) && forall e | e in entries :: e.1 < |arena|
    ensures r == UniqueTable(arena, same, entries)
  {
    ghost var t := UniqueTable(arena, same, entries);
    r := map[];
    var todo := Keys(entries);
    while todo != {}
      invariant todo <= Keys(entries)
      invariant forall k | k in r :: k in Keys(entries) && k !in todo
      invariant forall k | k in Keys(entries) && k !in todo :: (k in t <==> k in r) && (k in r ==> r[k] == t[k])
      decreases |todo|
    {
      var k :| k in todo;
      KeysGroup(entries, k);
      GroupInArena(arena, entries, k);
      var g := Group(entries, k);
      assert k in t <==> AllSame(arena, same, g);
      assert k in t ==> t[k] == Preferred(arena, g);
      r := PutIfUnique(arena, same, r, k, g);
      todo := todo - {k};
    }
  }

  /** The type comparison holds between a type and itself (the identity check of `equals`). */
  ghost predicate Reflexive(same: (Option<nat>, Option<nat>) -> bool) {
    forall t :: same(t, t)
  }

  /** A table entry exists iff the group agrees; it is a value of the group, elaborated when one is. */
  lemma UniqueTableMeaning(arena: seq<CType>, same: (Option<nat>, Option<nat>) -> bool,
                           entries: seq<(string, nat)>, k: string)
    requires ValidTypes(arena) && forall e | e in entries :: e.1 < |arena|
    requires Reflexive(same)
    ensures var t := UniqueTable(arena, same, entries);
      (|Group(entries, k)| == 0 ==> k !in t)
      && (|Group(entries, k)| > 0 ==>
            (k in t <==> forall w :: (k, w) in entries ==> same(Resolved(arena, Group(entries, k)[0]), Resolved(arena, w))))
      && (k in t ==> (k, t[k]) in entries
                     && (arena[t[k]].Elaborated? <==> exists w :: (k, w) in entries && arena[w].Elaborated?))
  {
    var t := UniqueTable(arena, same, entries);
    var g := Group(entries, k);
    KeysGroup(entries, k);
    GroupInArena(arena, entries, k);
    if exists v :: (k, v) in entries {
      var v :| (k, v) in entries;
      assert v in g;
      if forall w :: (k, w) in entries ==> same(Resolved(arena, g[0]), Resolved(arena, w)) {
        forall i | 1 <= i < |g| ensures same(Resolved(arena, g[0]), Resolved(arena, g[i])) {
          assert g[i] in g;
        }
      }
      if k in t {
        forall w | (k, w) in entries ensures same(Resolved(arena, g[0]), Resolved(arena, w)) {
          assert w in g;
          var i :| 0 <= i < |g| && g[i] == w;
          if i == 0 {
            assert same(Resolved(arena, g[0]), Resolved(arena, g[0]));
          }
        }
      }
    }
  }

  // ---------------------------------------------------------------------
  // Structural type equality
  // ---------------------------------------------------------------------

  /** The class check of `equals`: types that pass the non-recursive check are both composite or neither. */
  predicate ShallowOk(arena: seq<CType>, shallow: (nat, nat) -> bool) {
    forall a, b :: 0 <= a < |arena| && 0 <= b < |arena| && shallow(a, b) && arena[a].Composite? ==>
      arena[b].Composite?
  }

  function AllPairs(n: nat): set<(nat, nat)> {
    set a: nat, b: nat | a < n && b < n :: (a, b)
  }

  /**
   * A pair is justified by a set of pairs assumed equal: the types pass the
   * non-recursive check and, when composite, have as many members, member
   * types pairwise identical or assumed equal.
   */
  predicate Justified(arena: seq<CType>, shallow: (nat, nat) -> bool, assumed: set<(nat, nat)>, p: (nat, nat)) {
    p.0 < |arena| && p.1 < |arena| && shallow(p.0, p.1)
    && (arena[p.0].Composite? ==>
          arena[p.1].Composite? && |arena[p.0].members| == |arena[p.1].members|
          && forall i | 0 <= i < |arena[p.0].members| ::
               arena[p.0].members[i] == arena[p.1].members[i]
               || (arena[p.0].members[i], arena[p.1].members[i]) in assumed)
  }

  /** A set of pairs each justified by the set itself. */
  ghost predicate Bisimulation(arena: seq<CType>, shallow: (nat, nat) -> bool, rel: set<(nat, nat)>) {
    forall p | p in rel :: Justified(arena, shallow, rel, p)
  }

  lemma JustifiedMonotone(arena: seq<CType>, shallow: (nat, nat) -> bool, r1: set<(nat, nat)>, r2: set<(nat, nat)>, p: (nat, nat))
    requires r1 <= r2 && Justified(arena, shallow, r1, p)
    ensures Justified(arena, shallow, r2, p)
  {
  }

  /**
   * The recursive `equals` with the set of pairs already resolved (assumed
   * equal while their members are compared).  On success every newly
   * resolved pair is justified by the final set; whenever the pair lies in
   * a bisimulation the check succeeds.
   */
  method EqualsUnder(arena: seq<CType>, shallow: (nat, nat) -> bool,
                     a: Option<nat>, b: Option<nat>, resolved0: set<(nat, nat)>, ghost rel: set<(nat, nat)>)
    returns (r: bool, resolved: set<(nat, nat)>)
    requires ValidTypes(arena) && ShallowOk(arena, shallow)
    requires (a.Some? ==> a.value < |arena|) && (b.Some? ==> b.value < |arena|)
    requires resolved0 <= AllPairs(|arena|)
    ensures resolved <= AllPairs(|arena|)
    ensures a == b ==> r
    ensures r && a != b ==> a.Some? && b.Some? && (a.value, b.value) in resolved
    ensures r ==> resolved0 <= resolved
    ensures r ==> forall p | p in resolved && p !in resolved0 :: Justified(arena, shallow, resolved, p)
    ensures a.Some? && b.Some? && a != b && (a.value, b.value) !in resolved0 && !shallow(a.value, b.value) ==> !r
    ensures a.Some? && b.Some? && a != b && (a.value, b.value) !in resolved0 && !arena[a.value].Composite? ==>
      r == shallow(a.value, b.value)
    ensures Bisimulation(arena, shallow, rel) && a.Some? && b.Some? && (a.value, b.value) in rel ==> r
    decreases AllPairs(|arena|) - resolved0
  {
    if a == b {
      return true, resolved0;
    }
    if a.None? || b.None? {
      return false, resolved0;
    }
    var ab := (a.value, b.value);
    if ab in resolved0 {
      return true, resolved0;
    }
    if !shallow(ab.0, ab.1) {
      return false, resolved0;
    }
    if !arena[ab.0].Composite? {
      resolved := resolved0 + {ab};
      return true, resolved;
    }
    assert arena[ab.1].Composite?;
    var aMembers := arena[ab.0].members;
    var bMembers := arena[ab.1].members;
    if |aMembers| != |bMembers| {
      return false, resolved0;
    }
    resolved := resolved0 + {ab};
    var i := 0;
    while i < |bMembers|
      invariant 0 <= i <= |bMembers|
      invariant resolved0 + {ab} <= resolved <= AllPairs(|arena|)
      invariant forall p | p in resolved && p !in resolved0 + {ab} :: Justified(arena, shallow, resolved, p)
      invariant forall j | 0 <= j < i :: aMembers[j] == bMembers[j] || (aMembers[j], bMembers[j]) in resolved
      invariant Bisimulation(arena, shallow, rel) && ab in rel ==>
        forall j | 0 <= j < |bMembers| :: aMembers[j] == bMembers[j] || (aMembers[j], bMembers[j]) in rel
    {
      ghost var before := resolved;
      assert aMembers[i] in arena[ab.0].members && bMembers[i] in arena[ab.1].members;
      var eq;
      eq, resolved := EqualsUnder(arena, shallow, Some(aMembers[i]), Some(bMembers[i]), resolved, rel);
      if !eq {
        resolved := resolved - {ab};
        return false, resolved;
      }
      forall p | p in resolved && p !in resolved0 + {ab} ensures Justified(arena, shallow, resolved, p) {
        if p in before {
          JustifiedMonotone(arena, shallow, before, resolved, p);
        }
      }
      i := i + 1;
    }
    return true, resolved;
  }

  /**
   * CProgramScope.equals: two types are equal iff some bisimulation
   * relates them (identical types are always equal).
   */
  method Equals(arena: seq<CType>, shallow: (nat, nat) -> bool, a: Option<nat>, b: Option<nat>, ghost rel: set<(nat, nat)>)
    returns (r: bool)
    requires ValidTypes(arena) && ShallowOk(arena, shallow)
    requires (a.Some? ==> a.value < |arena|) && (b.Some? ==> b.value < |arena|)
    ensures a == b ==> r
    ensures r && a != b ==> a.Some? && b.Some? && exists w :: (a.value, b.value) in w && Bisimulation(arena, shallow, w)
    ensures Bisimulation(arena, shallow, rel) && a.Some? && b.Some? && (a.value, b.value) in rel ==> r
    ensures a.Some? && b.Some? && a != b && !arena[a.value].Composite? ==> r == shallow(a.value, b.value)
  {
    var resolved;
    r, resolved := EqualsUnder(arena, shallow, a, b, {}, rel);
  }

  // ---------------------------------------------------------------------
  // The scope
  // ---------------------------------------------------------------------

  /**
   * The tables of a program scope.  Function declarations are kept as the
   * list multimap from original qualified name to declaration; types are
   * arena indices.  `functionName` is set in a scope that simulates the
   * scope of that function.
   */
  datatype Scope = Scope(
    variableNames: set<string>,
    uniqueSimpleDeclarations: map<string, Decl>,
    functionDeclarations: seq<(string, Decl)>,
    qualifiedDeclarations: map<string, Decl>,
    qualifiedTypeDefs: map<string, nat>,
    qualifiedTypes: map<string, nat>,
    functionName: Option<string>)

  datatype ScopeError = IllegalState

  /** The types the scope refers to are in the arena, and its type table holds only complex types. */
  predicate ValidScope(arena: seq<CType>, s: Scope) {
    (forall k | k in s.qualifiedTypes :: s.qualifiedTypes[k] < |arena| && IsComplex(arena[s.qualifiedTypes[k]]))
    && (forall k | k in s.qualifiedTypeDefs :: s.qualifiedTypeDefs[k] < |arena|)
  }

  /** The empty program scope. */
  function Empty(): (s: Scope)
    ensures s.functionName.None?
    ensures s.variableNames == {} && s.functionDeclarations == []
    ensures s.qualifiedDeclarations == map[] && s.uniqueSimpleDeclarations == map[]
    ensures s.qualifiedTypes == map[] && s.qualifiedTypeDefs == map[]
  {
    Scope({}, map[], [], map[], map[], map[], None)
  }

  /** A scope that simulates the scope of function `f`: it shares every table. */
  function CreateFunctionScope(s: Scope, f: string): (r: Scope)
    ensures r.functionName == Some(f)
    ensures r.(functionName := s.functionName) == s
  {
    s.(functionName := Some(f))
  }

  /** simulatesFunctionScope. */
  predicate SimulatesFunctionScope(s: Scope) {
    s.functionName.Some?
  }

  /** A scope simulates a function scope exactly when `createFunctionScope` made it. */
  lemma SimulatesFunctionScopeMeaning(s: Scope)
    ensures SimulatesFunctionScope(s) <==> exists f :: s == CreateFunctionScope(s, f)
  {
    if SimulatesFunctionScope(s) {
      assert s == CreateFunctionScope(s, s.functionName.value);
    }
  }

  /** getCurrentFunctionName fails outside a function scope. */
  function CurrentFunctionName(s: Scope): (r: Result<string, ScopeError>)
    ensures r.Ok? <==> SimulatesFunctionScope(s)
    ensures r.Ok? ==> Some(r.value) == s.functionName
  {
    if s.functionName.Some? then Ok(s.functionName.value) else Err(IllegalState)
  }

  lemma CurrentFunctionNameOfFunctionScope(s: Scope, f: string)
    ensures CurrentFunctionName(CreateFunctionScope(s, f)) == Ok(f)
    ensures CurrentFunctionName(Empty()) == Err(IllegalState)
  {
  }

  /** variableNameInUse. */
  predicate VariableNameInUse(s: Scope, n: string) {
    n in s.variableNames
  }

  /** Whether a variable name is in use does not change when a function
   *  scope is made from the scope. */
  lemma VariableNameInUseMeaning(s: Scope, n: string, f: string)
    ensures VariableNameInUse(s, n) <==> n in CreateFunctionScope(s, f).variableNames
  {
  }

  /** createScopedNameOf: "function::name" in a function scope, the name itself otherwise. */
  function ScopedName(s: Scope, n: string): (r: string)
    ensures r == n <==> !SimulatesFunctionScope(s)
    ensures SimulatesFunctionScope(s) ==> StartsWith(r, s.functionName.value + "::") && EndsWith(r, n)
  {
    if s.functionName.Some? then s.functionName.value + "::" + n else n
  }

  /** lookupVariable. */
  function LookupVariable(s: Scope, n: string): (r: Option<Decl>)
    ensures r.Some? ==> r.value in s.qualifiedDeclarations.Values || r.value in s.uniqueSimpleDeclarations.Values
  {
    if s.functionName.Some? && s.functionName.value + "::" + n in s.qualifiedDeclarations then
      Some(s.qualifiedDeclarations[s.functionName.value + "::" + n])
    else if n in s.qualifiedDeclarations then Some(s.qualifiedDeclarations[n])
    else if n in s.uniqueSimpleDeclarations then Some(s.uniqueSimpleDeclarations[n])
    else None
  }

  /**
   * Lookup precedence: the scoped name, then the name as a qualified name,
   * then the unique simple name.
   */
  lemma LookupVariablePrecedence(s: Scope, n: string)
    ensures SimulatesFunctionScope(s) && ScopedName(s, n) in s.qualifiedDeclarations ==>
      LookupVariable(s, n) == Some(s.qualifiedDeclarations[ScopedName(s, n)])
    ensures ScopedName(s, n) !in s.qualifiedDeclarations && n in s.qualifiedDeclarations ==>
      LookupVariable(s, n) == Some(s.qualifiedDeclarations[n])
    ensures ScopedName(s, n) !in s.qualifiedDeclarations && n !in s.qualifiedDeclarations ==>
      LookupVariable(s, n) == if n in s.uniqueSimpleDeclarations then Some(s.uniqueSimpleDeclarations[n]) else None
  {
  }

  /** Without a declaration for "f::name", a function scope finds what the global scope finds. */
  lemma FunctionScopeFallsBack(s: Scope, f: string, n: string)
    requires f + "::" + n !in s.qualifiedDeclarations
    ensures LookupVariable(CreateFunctionScope(s, f), n) == LookupVariable(s.(functionName := None), n)
  {
  }

  /** lookupFunction: the first declaration indexed under the name. */
  function LookupFunction(s: Scope, n: string): (r: Option<Decl>)
    ensures r.None? <==> forall e | e in s.functionDeclarations :: e.0 != n
    ensures r.Some? ==> exists i :: 0 <= i < |s.functionDeclarations| && s.functionDeclarations[i] == (n, r.value)
                                    && forall j :: 0 <= j < i ==> s.functionDeclarations[j].0 != n
  {
    var g := Group(s.functionDeclarations, n);
    KeysGroup(s.functionDeclarations, n);
    if |g| > 0 then GroupFirst(s.functionDeclarations, n); Some(g[0]) else None
  }

  /** ComplexTypeKind.values(), written as in C. */
  const COMPLEX_TYPE_KINDS: seq<string> := ["enum", "struct", "union"]

  /** The distinct values stored under "<kind> name". */
  function Candidates<T(==)>(name: string, storage: map<string, T>): set<T> {
    set k | k in COMPLEX_TYPE_KINDS && k + " " + name in storage :: storage[k + " " + name]
  }

  /** Specification of lookupQualifiedComplexType. */
  function QualifiedComplexType<T(==)>(name: string, storage: map<string, T>): Option<T> {
    var found := Candidates(name, storage);
    if |found| == 1 then Some(Sets.OnlyElement(found)) else None
  }

  /** A value is found iff it is stored under some "<kind> name" and every such entry holds it. */
  lemma QualifiedComplexTypeMeaning<T>(name: string, storage: map<string, T>, v: T)
    ensures QualifiedComplexType(name, storage) == Some(v) <==>
      (exists k :: k in COMPLEX_TYPE_KINDS && k + " " + name in storage && storage[k + " " + name] == v)
      && forall k :: k in COMPLEX_TYPE_KINDS && k + " " + name in storage ==> storage[k + " " + name] == v
  {
    var found := Candidates(name, storage);
    if QualifiedComplexType(name, storage) == Some(v) {
      assert found == {v};
      assert v in found;
      forall k | k in COMPLEX_TYPE_KINDS && k + " " + name in storage ensures storage[k + " " + name] == v {
        assert storage[k + " " + name] in found;
      }
    }
    if (exists k :: k in COMPLEX_TYPE_KINDS && k + " " + name in storage && storage[k + " " + name] == v)
       && forall k :: k in COMPLEX_TYPE_KINDS && k + " " + name in storage ==> storage[k + " " + name] == v
    {
      var k :| k in COMPLEX_TYPE_KINDS && k + " " + name in storage && storage[k + " " + name] == v;
      assert v in found;
      assert found == {v};
    }
  }

  method LookupQualifiedComplexType<T(==)>(name: string, storage: map<string, T>) returns (r: Option<T>)
    ensures r == QualifiedComplexType(name, storage)
  {
    var potentialResults: set<T> := {};
    var i := 0;
    while i < |COMPLEX_TYPE_KINDS|
      invariant 0 <= i <= |COMPLEX_TYPE_KINDS|
      invariant potentialResults ==
        set k | k in COMPLEX_TYPE_KINDS[..i] && k + " " + name in storage :: storage[k + " " + name]
    {
      var key := COMPLEX_TYPE_KINDS[i] + " " + name;
      if key in storage {
        potentialResults := potentialResults + {storage[key]};
      }
      assert COMPLEX_TYPE_KINDS[..i + 1] == COMPLEX_TYPE_KINDS[..i] + [COMPLEX_TYPE_KINDS[i]];
      i := i + 1;
    }
    assert COMPLEX_TYPE_KINDS[..i] == COMPLEX_TYPE_KINDS;
    if |potentialResults| == 1 {
      var result :| result in potentialResults;
      r := Some(result);
    } else {
      r := None;
    }
  }

  /** Lookup of a name in one table: "<kind> name" entries first, then the name itself. */
  function LookupIn(n: string, table: map<string, nat>): (r: Option<nat>)
    ensures r.Some? ==> r.value in table.Values
  {
    var c := QualifiedComplexType(n, table);
    if c.Some? then
      assert c.value in Candidates(n, table);
      c
    else if n in table then Some(table[n])
    else None
  }

  /** lookupTypedef: in a function scope the function-qualified name first. */
  function LookupTypedef(s: Scope, n: string): (r: Option<nat>)
    ensures r.Some? ==> r.value in s.qualifiedTypeDefs.Values
  {
    if s.functionName.Some? && LookupIn(s.functionName.value + "::" + n, s.qualifiedTypeDefs).Some? then
      LookupIn(s.functionName.value + "::" + n, s.qualifiedTypeDefs)
    else LookupIn(n, s.qualifiedTypeDefs)
  }

  /** lookupType: complex types first, a typedef only when it names a complex type. */
  function LookupType(arena: seq<CType>, s: Scope, n: string): (r: Option<nat>)
    requires ValidScope(arena, s)
    ensures r.Some? ==> r.value < |arena| && IsComplex(arena[r.value])
    ensures r.Some? ==> r.value in s.qualifiedTypes.Values || r == LookupTypedef(s, n)
  {
    if s.functionName.Some? && LookupIn(s.functionName.value + "::" + n, s.qualifiedTypes).Some? then
      LookupIn(s.functionName.value + "::" + n, s.qualifiedTypes)
    else if LookupIn(n, s.qualifiedTypes).Some? then LookupIn(n, s.qualifiedTypes)
    else
      var t := LookupTypedef(s, n);
      if t.Some? && IsComplex(arena[t.value]) then t else None
  }

  /** The type table shadows the typedef table; a typedef that is not a complex type is not a type. */
  lemma LookupTypePrecedence(arena: seq<CType>, s: Scope, n: string)
    requires ValidScope(arena, s)
    ensures LookupIn(ScopedName(s, n), s.qualifiedTypes).Some? ==>
      LookupType(arena, s, n) == LookupIn(ScopedName(s, n), s.qualifiedTypes)
    ensures LookupIn(ScopedName(s, n), s.qualifiedTypes).None? && LookupIn(n, s.qualifiedTypes).None? ==>
      LookupType(arena, s, n) ==
        (var t := LookupTypedef(s, n); if t.Some? && IsComplex(arena[t.value]) then t else None)
    ensures LookupTypedef(s, n) ==
      if LookupIn(ScopedName(s, n), s.qualifiedTypeDefs).Some? then LookupIn(ScopedName(s, n), s.qualifiedTypeDefs)
      else LookupIn(n, s.qualifiedTypeDefs)
  {
  }

  /** The suffix a file-specific type name ends with (the current file name is empty). */
  const FILE_SPECIFIC_SUFFIX: string := "__"

  predicate IsFileSpecificTypeName(t: string) {
    EndsWith(t, FILE_SPECIFIC_SUFFIX)
  }

  /** A file-specific type name is some name with the suffix appended. */
  lemma IsFileSpecificTypeNameMeaning(t: string)
    ensures IsFileSpecificTypeName(t) <==> exists u :: t == u + FILE_SPECIFIC_SUFFIX
  {
    if IsFileSpecificTypeName(t) {
      assert t == t[..|t| - |FILE_SPECIFIC_SUFFIX|] + FILE_SPECIFIC_SUFFIX;
    }
  }

  /** getFileSpecificTypeName: a name as it would be after renaming. */
  function FileSpecificTypeName(s: Scope, t: string): (r: string)
    ensures r == t || r == t + FILE_SPECIFIC_SUFFIX
    ensures IsFileSpecificTypeName(t) ==> r == t
  {
    if IsFileSpecificTypeName(t) then t
    else if LookupTypedef(s, t + FILE_SPECIFIC_SUFFIX).None? && LookupTypedef(s, t).Some? then t
    else t + FILE_SPECIFIC_SUFFIX
  }

  /**
   * A name stays as it is iff it is file-specific already, or a typedef
   * exists under it but not under its renamed form; the result is stable.
   */
  lemma FileSpecificTypeNameMeaning(s: Scope, t: string)
    ensures FileSpecificTypeName(s, t) == t <==>
      IsFileSpecificTypeName(t) || (LookupTypedef(s, t + FILE_SPECIFIC_SUFFIX).None? && LookupTypedef(s, t).Some?)
    ensures FileSpecificTypeName(s, FileSpecificTypeName(s, t)) == FileSpecificTypeName(s, t)
  {
    var r := FileSpecificTypeName(s, t);
    if r != t {
      assert r == t + FILE_SPECIFIC_SUFFIX;
      assert r[|r| - 2..] == FILE_SPECIFIC_SUFFIX;
      assert IsFileSpecificTypeName(r);
    }
  }

  /** The empty scope finds nothing. */
  lemma EmptyScopeFindsNothing(arena: seq<CType>, n: string)
    ensures !VariableNameInUse(Empty(), n)
    ensures LookupVariable(Empty(), n).None? && LookupFunction(Empty(), n).None?
    ensures LookupTypedef(Empty(), n).None? && LookupType(arena, Empty(), n).None?
  {
    assert Candidates(n, Empty().qualifiedTypes) == {};
    assert Candidates(n, Empty().qualifiedTypeDefs) == {};
  }

  // ---------------------------------------------------------------------
  // Building the scope from the declarations of a program
  // ---------------------------------------------------------------------

  predicate IsFunctionDecl(d: Decl) { d.kind == FunctionDecl }
  predicate IsNonFunctionDecl(d: Decl) { d.kind != FunctionDecl }
  predicate IsTypeDefDecl(d: Decl) { d.kind == TypeDefDecl }

  /** The declarations with a name, as HAS_NAME filters them. */
  function Named(all: seq<Decl>): (r: seq<Decl>)
    ensures forall d | d in r :: d in all && HasName(d)
  {
    Filter(all, HasName)
  }

  /** The complex types among the collected types, indexed by qualified name. */
  function TypeEntries(arena: seq<CType>, collected: seq<nat>): (r: seq<(string, nat)>)
    ensures forall e | e in r :: e.1 < |arena| && IsComplex(arena[e.1]) && e.1 in collected
  {
    var c := Filter<nat>(collected, (t: nat) => t < |arena| && IsComplex(arena[t]));
    assert forall t | t in c :: t < |arena| && IsComplex(arena[t]) && t in collected;
    var r := seq(|c|, i requires 0 <= i < |c| => (assert c[i] in c; (arena[c[i]].qualifiedName, c[i])));
    assert forall i | 0 <= i < |r| :: r[i].1 in c;
    assert forall e | e in r :: exists i :: 0 <= i < |c| && e == r[i];
    r
  }

  /** Typedef declarations, indexed by qualified name, with the type they define. */
  function TypeDefEntries(named: seq<Decl>): (r: seq<(string, nat)>)
    requires forall d | d in named :: HasName(d)
    ensures forall e | e in r :: exists d :: d in named && e.1 == d.declType
  {
    var t := Filter(named, IsTypeDefDecl);
    var r := seq(|t|, i requires 0 <= i < |t| => (assert t[i] in t; (NamesOf(t[i]).qualifiedName, t[i].declType)));
    assert forall e | e in r :: exists i :: 0 <= i < |t| && e == r[i];
    r
  }

  lemma QualifiedDeclarationsNamed(ds: seq<Decl>)
    requires forall d | d in ds :: WellNamed(d)
    ensures forall k | k in QualifiedDeclarations(IndexByOriginalName(ds)) ::
      HasName(QualifiedDeclarations(IndexByOriginalName(ds))[k])
  {
    var entries := IndexByOriginalName(ds);
    var qd := QualifiedDeclarations(entries);
    forall k | k in qd ensures HasName(qd[k]) {
      var i :| 0 <= i < |entries| && entries[i] == (k, qd[k]);
      assert ds[i] in ds;
    }
  }

  lemma TablesInArena(arena: seq<CType>, same: (Option<nat>, Option<nat>) -> bool,
                      collected: seq<nat>, typeDefEntries: seq<(string, nat)>)
    requires ValidTypes(arena) && forall e | e in typeDefEntries :: e.1 < |arena|
    ensures var types := UniqueTable(arena, same, TypeEntries(arena, collected));
      forall k | k in types :: types[k] < |arena| && IsComplex(arena[types[k]])
    ensures var defs := UniqueTable(arena, same, typeDefEntries);
      forall k | k in defs :: defs[k] < |arena|
  {
  }

  /**
   * The scope of a whole program, from all declarations found on its edges
   * and the types collected from the declarations' types.
   */
  method BuildScope(arena: seq<CType>, same: (Option<nat>, Option<nat>) -> bool,
                    allDcls: seq<Decl>, collectedTypes: seq<nat>) returns (s: Scope)
    requires ValidTypes(arena)
    requires forall d | d in allDcls :: d.declType < |arena|
    requires forall d | d in allDcls && HasName(d) :: Rewritable(NamesOf(d))
    ensures ValidScope(arena, s)
    ensures s.functionName.None?
    ensures var named := Named(allDcls);
      && s.functionDeclarations == IndexByOriginalName(Filter(named, IsFunctionDecl))
      && s.variableNames == (set d | d in Filter(named, IsNonFunctionDecl) :: Name(d))
      && s.qualifiedDeclarations == QualifiedDeclarations(IndexByOriginalName(Filter(named, IsNonFunctionDecl)))
      && s.qualifiedTypeDefs == UniqueTable(arena, same, TypeDefEntries(named))
    ensures s.qualifiedTypes == UniqueTable(arena, same, TypeEntries(arena, collectedTypes))
    ensures s.uniqueSimpleDeclarations == UniqueSimpleDeclarations(s.qualifiedDeclarations)
  {
    var named := Named(allDcls);
    var functionDcls := Filter(named, IsFunctionDecl);
    var nonFunctionDcls := Filter(named, IsNonFunctionDecl);
    var qualifiedTypes := ExtractUnique(arena, same, TypeEntries(arena, collectedTypes));
    var typeDefEntries := TypeDefEntries(named);
    var qualifiedTypeDefs := ExtractUnique(arena, same, typeDefEntries);
    var functionDeclarations := IndexByOriginalName(functionDcls);
    var variableNames := set d | d in nonFunctionDcls :: Name(d);
    var nonFunctionEntries := IndexByOriginalName(nonFunctionDcls);
    var qualifiedDeclarations := ExtractQualifiedDeclarations(nonFunctionEntries);
    QualifiedDeclarationsNamed(nonFunctionDcls);
    TablesInArena(arena, same, collectedTypes, typeDefEntries);
    var uniqueSimpleDeclarations := UniqueSimpleDeclarations(qualifiedDeclarations);
    s := Scope(variableNames, uniqueSimpleDeclarations, functionDeclarations, qualifiedDeclarations,
               qualifiedTypeDefs, qualifiedTypes, None);
  }
}
