/** Maps of custom properties: counted boxes with entries of their own and a parent box.  A sole owner writes in
    place; otherwise the box is copied, or a new box is chained in front of it. */
module CustomPropertiesMap {
  import opened Dom

  type Name = string
  type Ref = nat
  type Handle = nat

  /** A computed value.  Comparison looks at `content` only: which kind of value it is,
      and its components or, for a value of universal syntax, its text. */
  datatype Value = Value(content: string, ignored: Ignored)

  /** The base URL and the taint of the value; which of several components that compare
      equal, such as 0 and -0, it has; and for universal syntax the rest of the variable's
      value. */
  datatype Ignored =
    Ignored(urlData: string, attrTainted: bool, representation: string, variable: Option<Variable>)

  datatype Variable = Variable(
    urlData: string,
    firstTokenType: nat,
    lastTokenType: nat,
    references: seq<string>,
    explicitlyAttrTainted: bool)

  /** An entry without a value hides what the parents say. */
  datatype Inner = Inner(own: map<Name, Option<Value>>, parent: Option<Ref>, ancestorCount: nat)

  datatype Cell = Cell(inner: Inner, count: nat, isStatic: bool)

  const ANCESTOR_COUNT_LIMIT: nat := 4
  const SMALL_THRESHOLD: nat := 8
  const EMPTY_REF: Ref := 0
  const EMPTY_CELL: Cell := Cell(Inner(map[], None, 0), 1, true)

  predicate SameValue(a: Option<Value>, b: Option<Value>) {
    match (a, b)
    case (Some(x), Some(y)) => x.content == y.content
    case (None, None) => true
    case _ => false
  }

  /** Parents exist, are one step shorter, and chains stay below the limit. */
  ghost predicate Chained(cells: map<Ref, Cell>) {
    forall r {:trigger ChainedAt(cells, r)} | r in cells :: ChainedAt(cells, r)
  }

  ghost predicate ChainedAt(cells: map<Ref, Cell>, r: Ref)
    requires r in cells
  {
    && cells[r].inner.ancestorCount <= ANCESTOR_COUNT_LIMIT
    && match cells[r].inner.parent
       case None => cells[r].inner.ancestorCount == 0
       case Some(p) => p in cells && cells[p].inner.ancestorCount + 1 == cells[r].inner.ancestorCount
  }

  /** What a box says about a name, its parents included. */
  ghost function Lookup(cells: map<Ref, Cell>, r: Ref, name: Name): Option<Value>
    requires Chained(cells) && r in cells
    decreases cells[r].inner.ancestorCount
  {
    var inner := cells[r].inner;
    if name in inner.own then inner.own[name]
    else if inner.parent.None? then None
    else assert ChainedAt(cells, r); Lookup(cells, inner.parent.value, name)
  }

  ghost function Names(cells: map<Ref, Cell>, r: Ref): set<Name>
    requires Chained(cells) && r in cells
    decreases cells[r].inner.ancestorCount
  {
    var inner := cells[r].inner;
    inner.own.Keys + if inner.parent.None? then {} else assert ChainedAt(cells, r); Names(cells, inner.parent.value)
  }

  lemma {:induction false} LookupNames(cells: map<Ref, Cell>, r: Ref, name: Name)
    requires Chained(cells) && r in cells && Lookup(cells, r, name).Some?
    ensures name in Names(cells, r)
    decreases cells[r].inner.ancestorCount
  {
    var inner := cells[r].inner;
    assert ChainedAt(cells, r);
    if name !in inner.own {
      LookupNames(cells, inner.parent.value, name);
    }
  }

  /** The mathematical map a box stands for. */
  ghost function MapOf(cells: map<Ref, Cell>, r: Ref): (m: map<Name, Value>)
    requires Chained(cells) && r in cells
    ensures forall n :: n in m <==> Lookup(cells, r, n).Some?
    ensures forall n | n in m :: Some(m[n]) == Lookup(cells, r, n)
  {
    forall n | Lookup(cells, r, n).Some? ensures n in Names(cells, r) { LookupNames(cells, r, n); }
    map n | n in Names(cells, r) && Lookup(cells, r, n).Some? :: Lookup(cells, r, n).value
  }

  /** A map after storing a value under a name, or removing the name. */
  function Updated(m: map<Name, Value>, name: Name, value: Option<Value>): map<Name, Value> {
    if value.Some? then m[name := value.value] else m - {name}
  }

  /** Boxes that keep their contents, and whose parents do, say the same as before. */
  lemma {:induction false} LookupKept(cells: map<Ref, Cell>, cells': map<Ref, Cell>, kept: set<Ref>, r: Ref, name: Name)
    requires Chained(cells) && Chained(cells') && kept <= cells.Keys && kept <= cells'.Keys && r in kept
    requires forall c | c in kept :: cells'[c].inner == cells[c].inner
    requires forall c | c in kept && cells[c].inner.parent.Some? :: cells[c].inner.parent.value in kept
    ensures Lookup(cells', r, name) == Lookup(cells, r, name)
    decreases cells[r].inner.ancestorCount
  {
    var inner := cells[r].inner;
    assert ChainedAt(cells, r) && ChainedAt(cells', r);
    if name !in inner.own && inner.parent.Some? {
      LookupKept(cells, cells', kept, inner.parent.value, name);
    }
  }

  lemma MapKept(cells: map<Ref, Cell>, cells': map<Ref, Cell>, kept: set<Ref>, r: Ref)
    requires Chained(cells) && Chained(cells') && kept <= cells.Keys && kept <= cells'.Keys && r in kept
    requires forall c | c in kept :: cells'[c].inner == cells[c].inner
    requires forall c | c in kept && cells[c].inner.parent.Some? :: cells[c].inner.parent.value in kept
    ensures MapOf(cells', r) == MapOf(cells, r)
  {
    forall n
      ensures Lookup(cells', r, n) == Lookup(cells, r, n)
    {
      LookupKept(cells, cells', kept, r, n);
    }
  }

  // -------------------------------------------------------------- ownership

  ghost function HandlesTo(handles: map<Handle, Ref>, r: Ref): set<Handle> {
    set h | h in handles && handles[h] == r
  }

  ghost function ChildrenOf(cells: map<Ref, Cell>, r: Ref): set<Ref> {
    set c | c in cells && cells[c].inner.parent == Some(r)
  }

  /** How many maps and boxes hold a reference to `r`. */
  ghost function Owners(cells: map<Ref, Cell>, handles: map<Handle, Ref>, r: Ref): nat {
    |HandlesTo(handles, r)| + |ChildrenOf(cells, r)|
  }

  /** Counts are exact; `extra` is a reference that is held outside maps and boxes. */
  ghost predicate Counted(cells: map<Ref, Cell>, handles: map<Handle, Ref>, extra: Option<Ref>) {
    forall r {:trigger CountedAt(cells, handles, extra, r)} | r in cells :: CountedAt(cells, handles, extra, r)
  }

  ghost predicate CountedAt(cells: map<Ref, Cell>, handles: map<Handle, Ref>, extra: Option<Ref>, r: Ref)
    requires r in cells
  {
    && (cells[r].isStatic <==> r == EMPTY_REF)
    && (!cells[r].isStatic ==>
          cells[r].count == Owners(cells, handles, r) + (if extra == Some(r) then 1 else 0) && cells[r].count > 0)
  }

  /** Everything refers to boxes that exist. */
  ghost predicate Closed(cells: map<Ref, Cell>, handles: map<Handle, Ref>, extra: Option<Ref>) {
    && EMPTY_REF in cells && cells[EMPTY_REF].inner == EMPTY_CELL.inner
    && (forall h | h in handles :: handles[h] in cells)
    && (extra.Some? ==> extra.value in cells)
  }

  ghost predicate Sound(cells: map<Ref, Cell>, handles: map<Handle, Ref>, extra: Option<Ref>) {
    Chained(cells) && Closed(cells, handles, extra) && Counted(cells, handles, extra)
  }

  lemma OwnersWithHandle(cells: map<Ref, Cell>, handles: map<Handle, Ref>, h: Handle, r: Ref, x: Ref)
    requires h !in handles
    ensures Owners(cells, handles[h := r], x) == Owners(cells, handles, x) + if x == r then 1 else 0
  {
    assert HandlesTo(handles[h := r], x) == HandlesTo(handles, x) + if x == r then {h} else {};
  }

  lemma OwnersWithCell(cells: map<Ref, Cell>, handles: map<Handle, Ref>, r: Ref, cell: Cell, x: Ref)
    requires r !in cells
    ensures Owners(cells[r := cell], handles, x)
            == Owners(cells, handles, x) + if cell.inner.parent == Some(x) then 1 else 0
  {
    assert ChildrenOf(cells[r := cell], x) == ChildrenOf(cells, x) + if cell.inner.parent == Some(x) then {r} else {};
  }

  lemma SameOwners(cells: map<Ref, Cell>, cells': map<Ref, Cell>, handles: map<Handle, Ref>, x: Ref)
    requires cells'.Keys == cells.Keys
    requires forall c | c in cells :: cells'[c].inner.parent == cells[c].inner.parent
    ensures Owners(cells', handles, x) == Owners(cells, handles, x)
  {
    assert ChildrenOf(cells', x) == ChildrenOf(cells, x);
  }

  /** Same boxes, same parents: chains stay as they are. */
  lemma SameChains(cells: map<Ref, Cell>, cells': map<Ref, Cell>)
    requires Chained(cells) && cells'.Keys == cells.Keys
    requires forall c | c in cells ::
               && cells'[c].inner.parent == cells[c].inner.parent
               && cells'[c].inner.ancestorCount == cells[c].inner.ancestorCount
    ensures Chained(cells')
  {
    forall r | r in cells'
      ensures ChainedAt(cells', r)
    {
      assert ChainedAt(cells, r);
    }
  }

  function Incremented(cells: map<Ref, Cell>, r: Ref): map<Ref, Cell>
    requires r in cells
  {
    if cells[r].isStatic then cells else cells[r := cells[r].(count := cells[r].count + 1)]
  }

  function Decremented(cells: map<Ref, Cell>, r: Ref): map<Ref, Cell>
    requires r in cells && (cells[r].isStatic || cells[r].count > 0)
  {
    if cells[r].isStatic then cells else cells[r := cells[r].(count := cells[r].count - 1)]
  }

  /** One more reference, held by nobody yet. */
  lemma AcquireSound(cells: map<Ref, Cell>, handles: map<Handle, Ref>, r: Ref)
    requires Sound(cells, handles, None) && r in cells
    ensures Sound(Incremented(cells, r), handles, Some(r))
  {
    var cells' := Incremented(cells, r);
    SameChains(cells, cells');
    forall x | x in cells'
      ensures CountedAt(cells', handles, Some(r), x)
    {
      assert CountedAt(cells, handles, None, x);
      SameOwners(cells, cells', handles, x);
    }
  }

  /** One reference less, while others remain. */
  lemma ReleaseSharedSound(cells: map<Ref, Cell>, handles: map<Handle, Ref>, r: Ref)
    requires Sound(cells, handles, Some(r)) && (cells[r].isStatic || cells[r].count > 1)
    ensures Sound(Decremented(cells, r), handles, None)
  {
    var cells' := Decremented(cells, r);
    SameChains(cells, cells');
    forall x | x in cells'
      ensures CountedAt(cells', handles, None, x)
    {
      assert CountedAt(cells, handles, Some(r), x);
      SameOwners(cells, cells', handles, x);
    }
  }

  /** A map variable takes over the reference. */
  lemma BindSound(cells: map<Ref, Cell>, handles: map<Handle, Ref>, h: Handle, r: Ref)
    requires Sound(cells, handles, Some(r)) && h !in handles
    ensures Sound(cells, handles[h := r], None)
  {
    forall x | x in cells
      ensures CountedAt(cells, handles[h := r], None, x)
    {
      assert CountedAt(cells, handles, Some(r), x);
      OwnersWithHandle(cells, handles, h, r, x);
    }
  }

  /** A map variable gives its reference up. */
  lemma UnbindSound(cells: map<Ref, Cell>, handles: map<Handle, Ref>, h: Handle)
    requires Sound(cells, handles, None) && h in handles
    ensures Sound(cells, handles - {h}, Some(handles[h]))
  {
    var rest := handles - {h};
    assert handles == rest[h := handles[h]];
    forall x | x in cells
      ensures CountedAt(cells, rest, Some(handles[h]), x)
    {
      assert CountedAt(cells, handles, None, x);
      OwnersWithHandle(cells, rest, h, handles[h], x);
    }
  }

  /** A new box takes over the reference to its parent. */
  lemma NewCellSound(cells: map<Ref, Cell>, handles: map<Handle, Ref>, r: Ref, inner: Inner)
    requires Sound(cells, handles, inner.parent) && r !in cells
    requires inner.ancestorCount <= ANCESTOR_COUNT_LIMIT
    requires if inner.parent.None? then inner.ancestorCount == 0
             else inner.ancestorCount == cells[inner.parent.value].inner.ancestorCount + 1
    ensures Sound(cells[r := Cell(inner, 1, false)], handles, Some(r))
  {
    var cell := Cell(inner, 1, false);
    var cells' := cells[r := cell];
    NobodyRefersTo(cells, handles, r, inner.parent);
    forall x | x in cells'
      ensures CountedAt(cells', handles, Some(r), x) && ChainedAt(cells', x)
    {
      OwnersWithCell(cells, handles, r, cell, x);
      if x != r {
        assert CountedAt(cells, handles, inner.parent, x) && ChainedAt(cells, x);
      }
    }
  }

  lemma NobodyRefersTo(cells: map<Ref, Cell>, handles: map<Handle, Ref>, r: Ref, extra: Option<Ref>)
    requires Sound(cells, handles, extra) && r !in cells
    ensures Owners(cells, handles, r) == 0
  {
    assert HandlesTo(handles, r) == {};
    assert forall c | c in cells :: ChainedAt(cells, c);
    assert ChildrenOf(cells, r) == {};
  }

  lemma NoOwners(cells: map<Ref, Cell>, handles: map<Handle, Ref>, r: Ref)
    requires Owners(cells, handles, r) == 0
    ensures forall h | h in handles :: handles[h] != r
    ensures forall c | c in cells :: cells[c].inner.parent != Some(r)
  {
    assert HandlesTo(handles, r) == {} && ChildrenOf(cells, r) == {};
    forall h | h in handles
      ensures handles[h] != r
    {
      assert handles[h] == r ==> h in HandlesTo(handles, r);
    }
    forall c | c in cells
      ensures cells[c].inner.parent != Some(r)
    {
      assert cells[c].inner.parent == Some(r) ==> c in ChildrenOf(cells, r);
    }
  }

  /** Giving the last reference up: nobody refers to the box, and its own reference to
      the parent is the next to give up. */
  lemma ReleaseLastSound(cells: map<Ref, Cell>, handles: map<Handle, Ref>, r: Ref)
    requires Sound(cells, handles, Some(r)) && !cells[r].isStatic && cells[r].count == 1
    ensures forall h | h in handles :: handles[h] != r
    ensures forall c | c in cells :: cells[c].inner.parent != Some(r)
    ensures Sound(cells - {r}, handles, cells[r].inner.parent)
    ensures cells[r].inner.parent.Some? ==>
              cells[cells[r].inner.parent.value].inner.ancestorCount < cells[r].inner.ancestorCount
  {
    assert CountedAt(cells, handles, Some(r), r) && ChainedAt(cells, r);
    NoOwners(cells, handles, r);
    var rest := cells - {r};
    assert cells == rest[r := cells[r]];
    forall x | x in rest
      ensures CountedAt(rest, handles, cells[r].inner.parent, x) && ChainedAt(rest, x)
    {
      assert CountedAt(cells, handles, Some(r), x) && ChainedAt(cells, x);
      OwnersWithCell(rest, handles, r, cells[r], x);
    }
  }

  /** Writing entries into a box changes no reference. */
  lemma WriteSound(cells: map<Ref, Cell>, handles: map<Handle, Ref>, r: Ref, own: map<Name, Option<Value>>)
    requires Sound(cells, handles, None) && r in cells && !cells[r].isStatic
    ensures Sound(cells[r := cells[r].(inner := cells[r].inner.(own := own))], handles, None)
  {
    var cells' := cells[r := cells[r].(inner := cells[r].inner.(own := own))];
    assert CountedAt(cells, handles, None, r);
    SameChains(cells, cells');
    forall x | x in cells'
      ensures CountedAt(cells', handles, None, x)
    {
      assert CountedAt(cells, handles, None, x);
      SameOwners(cells, cells', handles, x);
    }
  }

  // ------------------------------------------------------------ contents kept

  /** The same boxes with the same contents. */
  ghost predicate SameContents(cells: map<Ref, Cell>, cells': map<Ref, Cell>) {
    cells.Keys <= cells'.Keys && forall c | c in cells :: cells'[c].inner == cells[c].inner
  }

  lemma ContentsKeepMaps(cells: map<Ref, Cell>, cells': map<Ref, Cell>, r: Ref)
    requires Chained(cells) && Chained(cells') && SameContents(cells, cells') && r in cells
    ensures MapOf(cells', r) == MapOf(cells, r)
    ensures forall n :: Lookup(cells', r, n) == Lookup(cells, r, n)
  {
    assert forall c | c in cells :: ChainedAt(cells, c);
    MapKept(cells, cells', cells.Keys, r);
    forall n
      ensures Lookup(cells', r, n) == Lookup(cells, r, n)
    {
      LookupKept(cells, cells', cells.Keys, r, n);
    }
  }

  /** Boxes that do not refer to `r` are not affected by what happens to it. */
  lemma OthersKeepMaps(cells: map<Ref, Cell>, cells': map<Ref, Cell>, r: Ref, x: Ref)
    requires Chained(cells) && Chained(cells') && x in cells && x != r
    requires forall c | c in cells && c != r :: c in cells' && cells'[c].inner == cells[c].inner
    requires forall c | c in cells :: cells[c].inner.parent != Some(r)
    ensures MapOf(cells', x) == MapOf(cells, x)
  {
    assert forall c | c in cells :: ChainedAt(cells, c);
    MapKept(cells, cells', cells.Keys - {r}, x);
  }

  /** A sole owner is the only one to see its box. */
  lemma SoleOwner(cells: map<Ref, Cell>, handles: map<Handle, Ref>, h: Handle)
    requires Sound(cells, handles, None) && h in handles
    requires !cells[handles[h]].isStatic && cells[handles[h]].count == 1
    ensures forall k | k in handles && k != h :: handles[k] != handles[h]
    ensures forall c | c in cells :: cells[c].inner.parent != Some(handles[h])
  {
    var r := handles[h];
    assert CountedAt(cells, handles, None, r);
    assert h in HandlesTo(handles, r);
    assert HandlesTo(handles, r) == {h} + (HandlesTo(handles, r) - {h});
    assert |HandlesTo(handles, r)| == 1 + |HandlesTo(handles, r) - {h}|;
    assert HandlesTo(handles, r) - {h} == {} && ChildrenOf(cells, r) == {};
    forall k | k in handles && k != h
      ensures handles[k] != r
    {
      assert k in HandlesTo(handles, r) <==> handles[k] == r;
      assert k !in HandlesTo(handles, r) - {h};
    }
    forall c | c in cells
      ensures cells[c].inner.parent != Some(r)
    {
      assert cells[c].inner.parent == Some(r) ==> c in ChildrenOf(cells, r);
    }
  }

  lemma {:induction false} WriteLookup(cells: map<Ref, Cell>, cells': map<Ref, Cell>, r: Ref, name: Name,
                                       value: Option<Value>)
    requires Chained(cells) && Chained(cells') && r in cells && r in cells'
    requires cells'[r].inner == cells[r].inner.(own := cells[r].inner.own[name := value])
    requires forall c | c in cells && c != r :: c in cells' && cells'[c].inner == cells[c].inner
    requires forall c | c in cells :: cells[c].inner.parent != Some(r)
    ensures MapOf(cells', r) == Updated(MapOf(cells, r), name, value)
  {
    var p := cells[r].inner.parent;
    assert ChainedAt(cells, r) && ChainedAt(cells', r);
    if p.Some? {
      assert forall c | c in cells :: ChainedAt(cells, c);
      forall n
        ensures Lookup(cells', p.value, n) == Lookup(cells, p.value, n)
      {
        LookupKept(cells, cells', cells.Keys - {r}, p.value, n);
      }
    }
    assert forall n :: Lookup(cells', r, n) == if n == name then value else Lookup(cells, r, n);
  }

  /** Boxes are only freed, and counts only go down. */
  ghost predicate OnlyReleased(cells: map<Ref, Cell>, cells': map<Ref, Cell>) {
    forall c | c in cells' ::
      && c in cells
      && cells'[c].inner == cells[c].inner
      && cells'[c].isStatic == cells[c].isStatic
      && cells'[c].count <= cells[c].count
  }

  // ---------------------------------------------------- what inserting means

  /** The map after an insertion: a map that shares its box skips a value that compares
      equal to the one it has. */
  function Inserted(m: map<Name, Value>, unique: bool, name: Name, value: Option<Value>): map<Name, Value> {
    if !unique && SameValue(if name in m then Some(m[name]) else None, value) then m else Updated(m, name, value)
  }

  /** An insertion loses the new value if the box is shared, the name has a value that
      compares equal, and the part that comparison ignores differs. */
  predicate Loses(m: map<Name, Value>, unique: bool, name: Name, value: Option<Value>) {
    && !unique && value.Some? && name in m
    && m[name].content == value.value.content && m[name].ignored != value.value.ignored
  }

  /** Insertion is exact unless it loses the new value. */
  lemma InsertedIsExactUnless(m: map<Name, Value>, unique: bool, name: Name, value: Option<Value>)
    ensures Inserted(m, unique, name, value) == Updated(m, name, value) <==> !Loses(m, unique, name, value)
  {
    var u := Updated(m, name, value);
    if Inserted(m, unique, name, value) == u && value.Some? {
      assert u[name] == value.value;
    }
  }

  function Contents(m: map<Name, Value>): map<Name, string> {
    map n | n in m :: m[n].content
  }

  function UpdatedContents(m: map<Name, string>, name: Name, value: Option<Value>): map<Name, string> {
    if value.Some? then m[name := value.value.content] else m - {name}
  }

  /** Whether the box is shared does not show in what values compare by. */
  lemma InsertedContents(m: map<Name, Value>, unique: bool, name: Name, value: Option<Value>)
    ensures Contents(Inserted(m, unique, name, value)) == UpdatedContents(Contents(m), name, value)
  {
  }

  datatype Op =
    | MakeDefault
    | Copy(h: Handle)
    | Discard(h: Handle)
    | Store(h: Handle, name: Name, value: Value)
    | Remove(h: Handle, name: Name)

  /** Every map on its own, with nothing shared. */
  datatype Spec = Spec(maps: map<Handle, map<Name, Value>>, next: Handle)

  function SpecStep(s: Spec, op: Op): Spec {
    match op
    case MakeDefault => Spec(s.maps[s.next := map[]], s.next + 1)
    case Copy(h) => if h in s.maps then Spec(s.maps[s.next := s.maps[h]], s.next + 1) else s
    case Discard(h) => Spec(s.maps - {h}, s.next)
    case Store(h, name, value) => if h in s.maps then Spec(s.maps[h := s.maps[h][name := value]], s.next) else s
    case Remove(h, name) => if h in s.maps then Spec(s.maps[h := s.maps[h] - {name}], s.next) else s
  }

  function SpecRun(s: Spec, ops: seq<Op>): Spec
    decreases |ops|
  {
    if ops == [] then s else SpecStep(SpecRun(s, ops[..|ops| - 1]), ops[|ops| - 1])
  }

  /** No operation stores a value that differs from the old one only in what comparison
      ignores. */
  predicate Careful(s: Spec, op: Op) {
    op.Store? && op.h in s.maps ==> !Loses(s.maps[op.h], false, op.name, Some(op.value))
  }

  predicate CarefulRun(s: Spec, ops: seq<Op>)
    decreases |ops|
  {
    ops == [] || (CarefulRun(s, ops[..|ops| - 1]) && Careful(SpecRun(s, ops[..|ops| - 1]), ops[|ops| - 1]))
  }

  /** What comparison sees of all maps. */
  function Shown(s: Spec): map<Handle, map<Name, string>> {
    map h | h in s.maps :: Contents(s.maps[h])
  }

  /** What an operation does to what comparison sees. */
  function ShownStep(maps: map<Handle, map<Name, string>>, next: Handle, op: Op): map<Handle, map<Name, string>> {
    match op
    case MakeDefault => maps[next := map[]]
    case Copy(h) => if h in maps then maps[next := maps[h]] else maps
    case Discard(h) => maps - {h}
    case Store(h, name, value) => if h in maps then maps[h := maps[h][name := value.content]] else maps
    case Remove(h, name) => if h in maps then maps[h := maps[h] - {name}] else maps
  }

  lemma ShownOfStep(s: Spec, op: Op)
    ensures Shown(SpecStep(s, op)) == ShownStep(Shown(s), s.next, op)
  {
    if op.Store? && op.h in s.maps {
      assert Contents(s.maps[op.h][op.name := op.value]) == Contents(s.maps[op.h])[op.name := op.value.content];
    } else if op.Remove? && op.h in s.maps {
      assert Contents(s.maps[op.h] - {op.name}) == Contents(s.maps[op.h]) - {op.name};
    }
  }

  /** Insertion into one map, as an operation on all. */
  lemma StoreIsStep(s: Spec, s': Spec, h: Handle, name: Name, value: Value, unique: bool)
    requires h in s.maps && s' == Spec(s.maps[h := Inserted(s.maps[h], unique, name, Some(value))], s.next)
    ensures s' == SpecStep(s, Store(h, name, value)) <==> !Loses(s.maps[h], unique, name, Some(value))
    ensures Shown(s') == ShownStep(Shown(s), s.next, Store(h, name, value))
  {
    InsertedIsExactUnless(s.maps[h], unique, name, Some(value));
    InsertedContents(s.maps[h], unique, name, Some(value));
    assert s'.maps[h] == Inserted(s.maps[h], unique, name, Some(value));
    assert SpecStep(s, Store(h, name, value)).maps[h] == Updated(s.maps[h], name, Some(value));
  }

  lemma RemoveIsStep(s: Spec, s': Spec, h: Handle, name: Name, unique: bool)
    requires h in s.maps && s' == Spec(s.maps[h := Inserted(s.maps[h], unique, name, None)], s.next)
    ensures s' == SpecStep(s, Remove(h, name))
  {
    InsertedIsExactUnless(s.maps[h], unique, name, None);
  }

  ghost function ParentChain(cells: map<Ref, Cell>, r: Ref): seq<Ref>
    requires Chained(cells) && r in cells
    decreases cells[r].inner.ancestorCount
  {
    assert ChainedAt(cells, r);
    if cells[r].inner.parent.None? then []
    else [cells[r].inner.parent.value] + ParentChain(cells, cells[r].inner.parent.value)
  }

  /** A lookup never visits more than the limit's worth of parents. */
  lemma {:induction false} ChainsAreShort(cells: map<Ref, Cell>, r: Ref)
    requires Chained(cells) && r in cells
    ensures |ParentChain(cells, r)| == cells[r].inner.ancestorCount <= ANCESTOR_COUNT_LIMIT
    decreases cells[r].inner.ancestorCount
  {
    assert ChainedAt(cells, r);
    if cells[r].inner.parent.Some? {
      ChainsAreShort(cells, cells[r].inner.parent.value);
    }
  }

  /** Between operations, every box but the static one is in use. */
  lemma NothingLeaks(cells: map<Ref, Cell>, handles: map<Handle, Ref>, r: Ref)
    requires Sound(cells, handles, None) && r in cells && r != EMPTY_REF
    ensures (exists h :: h in handles && handles[h] == r)
            || exists c :: c in cells && cells[c].inner.parent == Some(r)
  {
    assert CountedAt(cells, handles, None, r);
    if HandlesTo(handles, r) != {} {
      var h :| h in HandlesTo(handles, r);
    } else if ChildrenOf(cells, r) != {} {
      var c :| c in ChildrenOf(cells, r);
    }
  }

  /** All maps but `h` say what they said before. */
  ghost predicate OthersKept(c: map<Ref, Cell>, hs: map<Handle, Ref>, c': map<Ref, Cell>, hs': map<Handle, Ref>,
                             h: Handle) {
    && Chained(c) && Chained(c')
    && (forall k | k in hs :: hs[k] in c)
    && (forall k | k in hs' :: hs'[k] in c')
    && hs'.Keys == hs.Keys && h in hs
    && forall k | k in hs && k != h :: MapOf(c', hs'[k]) == MapOf(c, hs[k])
  }

  /** All maps. */
  ghost function AllMaps(cells: map<Ref, Cell>, handles: map<Handle, Ref>): map<Handle, map<Name, Value>>
    requires Chained(cells) && forall h | h in handles :: handles[h] in cells
  {
    map h | h in handles :: MapOf(cells, handles[h])
  }

  lemma MapAdded(c: map<Ref, Cell>, hs: map<Handle, Ref>, c': map<Ref, Cell>, hs': map<Handle, Ref>, h: Handle)
    requires Chained(c) && Chained(c') && (forall k | k in hs :: hs[k] in c) && (forall k | k in hs' :: hs'[k] in c')
    requires hs'.Keys == hs.Keys + {h} && h !in hs
    requires forall k | k in hs :: MapOf(c', hs'[k]) == MapOf(c, hs[k])
    ensures AllMaps(c', hs') == AllMaps(c, hs)[h := MapOf(c', hs'[h])]
  {
  }

  lemma MapChanged(c: map<Ref, Cell>, hs: map<Handle, Ref>, c': map<Ref, Cell>, hs': map<Handle, Ref>, h: Handle)
    requires OthersKept(c, hs, c', hs', h)
    ensures AllMaps(c', hs') == AllMaps(c, hs)[h := MapOf(c', hs'[h])]
  {
  }

  // ------------------------------------------------------------------ code

  /** All maps and boxes.  `extra` is the reference the running code holds. */
  class Heap {
    var cells: map<Ref, Cell>
    var handles: map<Handle, Ref>
    var nextRef: Ref
    var nextHandle: Handle
    ghost var extra: Option<Ref>

    ghost predicate Valid()
      reads this
    {
      && Sound(cells, handles, extra)
      && (forall r | r in cells :: r < nextRef)
      && forall h | h in handles :: h < nextHandle
    }

    /** What a map says about a name. */
    ghost function Says(h: Handle, name: Name): Option<Value>
      requires Valid() && h in handles
      reads this
    {
      Lookup(cells, handles[h], name)
    }

    constructor ()
      ensures Valid() && extra.None? && handles == map[]
    {
      cells, handles, nextRef, nextHandle, extra := map[EMPTY_REF := EMPTY_CELL], map[], 1, 0, None;
      new;
      assert ChainedAt(cells, EMPTY_REF);
    }

    method Acquire(r: Ref)
      requires Valid() && extra.None? && r in cells
      modifies this`cells, this`extra
      ensures Valid() && extra == Some(r) && SameContents(old(cells), cells) && cells.Keys == old(cells).Keys
    {
      AcquireSound(cells, handles, r);
      cells, extra := Incremented(cells, r), Some(r);
    }

    /** Gives a reference up; frees the box, and its parents, when it was the last. */
    method Release(r: Ref)
      requires Valid() && extra == Some(r)
      modifies this`cells, this`extra
      ensures Valid() && extra.None?
      ensures forall k | k in handles :: MapOf(cells, handles[k]) == MapOf(old(cells), handles[k])
      ensures OnlyReleased(old(cells), cells)
    {
      var current := r;
      while true
        invariant Valid() && extra == Some(current)
        invariant forall k | k in handles :: handles[k] in old(cells)
        invariant forall k | k in handles :: MapOf(cells, handles[k]) == MapOf(old(cells), handles[k])
        invariant OnlyReleased(old(cells), cells)
        decreases cells[current].inner.ancestorCount
      {
        ghost var before := cells;
        if cells[current].isStatic {
          ReleaseSharedSound(cells, handles, current);
          extra := None;
          return;
        }
        assert CountedAt(cells, handles, extra, current);
        if cells[current].count != 1 {
          ReleaseSharedSound(cells, handles, current);
          cells, extra := Decremented(cells, current), None;
          forall k | k in handles
            ensures MapOf(cells, handles[k]) == MapOf(before, handles[k])
          {
            ContentsKeepMaps(before, cells, handles[k]);
          }
          return;
        }
        var parent := cells[current].inner.parent;
        ReleaseLastSound(cells, handles, current);
        cells, extra := cells - {current}, parent;
        forall k | k in handles
          ensures MapOf(cells, handles[k]) == MapOf(before, handles[k])
        {
          OthersKeepMaps(before, cells, current, handles[k]);
        }
        if parent.None? {
          return;
        }
        current := parent.value;
      }
    }

    /** A new box that takes over the reference to its parent. */
    method NewBox(inner: Inner) returns (r: Ref)
      requires Valid() && extra == inner.parent && inner.ancestorCount <= ANCESTOR_COUNT_LIMIT
      requires if inner.parent.None? then inner.ancestorCount == 0
               else inner.ancestorCount == cells[inner.parent.value].inner.ancestorCount + 1
      modifies this`cells, this`extra, this`nextRef
      ensures Valid() && extra == Some(r) && r !in old(cells) && cells == old(cells)[r := Cell(inner, 1, false)]
    {
      r := nextRef;
      NewCellSound(cells, handles, r, inner);
      cells, extra, nextRef := cells[r := Cell(inner, 1, false)], Some(r), nextRef + 1;
    }

    /** A map variable takes over the reference. */
    method NewHandle(r: Ref) returns (h: Handle)
      requires Valid() && extra == Some(r)
      modifies this`handles, this`extra, this`nextHandle
      ensures Valid() && extra.None? && h !in old(handles) && handles == old(handles)[h := r]
      ensures h == old(nextHandle) && nextHandle == old(nextHandle) + 1
    {
      h := nextHandle;
      BindSound(cells, handles, h, r);
      handles, extra, nextHandle := handles[h := r], None, nextHandle + 1;
    }

    /** A map variable is made to refer to another box; what it referred to is released. */
    method Assign(h: Handle, r: Ref)
      requires Valid() && extra == Some(r) && h in handles
      modifies this
      ensures Valid() && extra.None? && handles == old(handles)[h := r] && r in cells && nextHandle == old(nextHandle)
      ensures forall k | k in handles :: MapOf(cells, handles[k]) == MapOf(old(cells), handles[k])
      ensures OnlyReleased(old(cells), cells)
    {
      var before := handles[h];
      SwapSound(cells, handles, h, r);
      handles, extra := handles[h := r], Some(before);
      Release(before);
      assert handles[h] == r;
    }

    // ---------------------------------------------------- maps of properties

    /** A new map shares the static empty box. */
    method Default() returns (h: Handle)
      requires Valid() && extra.None?
      modifies this
      ensures Valid() && extra.None? && handles.Keys == old(handles).Keys + {h} && h !in old(handles)
      ensures h == old(nextHandle) && nextHandle == old(nextHandle) + 1
      ensures MapOf(cells, handles[h]) == map[]
      ensures forall k | k in old(handles) :: MapOf(cells, handles[k]) == MapOf(old(cells), old(handles)[k])
    {
      h := Share(EMPTY_REF);
      assert ChainedAt(cells, EMPTY_REF);
    }

    /** Copying a map shares its box. */
    method Clone(h: Handle) returns (copy: Handle)
      requires Valid() && extra.None? && h in handles
      modifies this
      ensures Valid() && extra.None? && handles.Keys == old(handles).Keys + {copy} && copy !in old(handles)
      ensures copy == old(nextHandle) && nextHandle == old(nextHandle) + 1
      ensures MapOf(cells, handles[copy]) == MapOf(old(cells), old(handles)[h])
      ensures !IsUnique(copy)
      ensures forall k | k in old(handles) :: MapOf(cells, handles[k]) == MapOf(old(cells), old(handles)[k])
    {
      copy := Share(handles[h]);
      if IsUnique(copy) {
        SoleOwner(cells, handles, copy);
        assert false;
      }
    }

    method Share(r: Ref) returns (h: Handle)
      requires Valid() && extra.None? && r in cells
      modifies this
      ensures Valid() && extra.None? && h !in old(handles) && handles == old(handles)[h := r]
      ensures h == old(nextHandle) && nextHandle == old(nextHandle) + 1
      ensures r in cells && cells[r].inner == old(cells)[r].inner
      ensures MapOf(cells, r) == MapOf(old(cells), r)
      ensures forall k | k in old(handles) :: MapOf(cells, handles[k]) == MapOf(old(cells), old(handles)[k])
    {
      ghost var before := cells;
      Acquire(r);
      h := NewHandle(r);
      ContentsKeepMaps(before, cells, r);
      forall k | k in old(handles)
        ensures MapOf(cells, handles[k]) == MapOf(before, old(handles)[k])
      {
        ContentsKeepMaps(before, cells, handles[k]);
      }
    }

    /** Dropping a map leaves the others as they are. */
    method Drop(h: Handle)
      requires Valid() && extra.None? && h in handles
      modifies this
      ensures Valid() && extra.None? && handles == old(handles) - {h} && nextHandle == old(nextHandle)
      ensures forall k | k in handles :: MapOf(cells, handles[k]) == MapOf(old(cells), old(handles)[k])
    {
      var r := handles[h];
      UnbindSound(cells, handles, h);
      handles, extra := handles - {h}, Some(r);
      Release(r);
    }

    /** Looks a name up along the chain of boxes. */
    method Get(h: Handle, name: Name) returns (v: Option<Value>)
      requires Valid() && h in handles
      ensures v == Says(h, name)
      ensures v == if name in MapOf(cells, handles[h]) then Some(MapOf(cells, handles[h])[name]) else None
    {
      var r := handles[h];
      while name !in cells[r].inner.own && cells[r].inner.parent.Some?
        invariant r in cells && Lookup(cells, r, name) == Says(h, name)
        decreases cells[r].inner.ancestorCount
      {
        assert ChainedAt(cells, r);
        r := cells[r].inner.parent.value;
      }
      v := if name in cells[r].inner.own then cells[r].inner.own[name] else None;
    }

    predicate IsUnique(h: Handle)
      requires h in handles && handles[h] in cells
      reads this
    {
      !cells[handles[h]].isStatic && cells[handles[h]].count == 1
    }

    predicate ShouldExpandChain(r: Ref)
      requires r in cells
      reads this
    {
      |cells[r].inner.own| > SMALL_THRESHOLD && cells[r].inner.ancestorCount < ANCESTOR_COUNT_LIMIT
    }

    /** Writes into the box of a sole owner. */
    method WriteInPlace(h: Handle, name: Name, value: Option<Value>)
      requires Valid() && extra.None? && h in handles && IsUnique(h)
      modifies this`cells
      ensures Valid()
      ensures MapOf(cells, handles[h]) == Updated(MapOf(old(cells), handles[h]), name, value)
      ensures OthersKept(old(cells), handles, cells, handles, h)
    {
      var r := handles[h];
      ghost var before := cells;
      var own := cells[r].inner.own[name := value];
      SoleOwner(cells, handles, h);
      WriteSound(cells, handles, r, own);
      cells := cells[r := cells[r].(inner := cells[r].inner.(own := own))];
      WriteLookup(before, cells, r, name, value);
      forall k | k in handles && k != h
        ensures MapOf(cells, handles[k]) == MapOf(before, handles[k])
      {
        OthersKeepMaps(before, cells, r, handles[k]);
      }
    }

    /** Replaces a shared box by a copy of its own entries, as `make_mut` does. */
    method Unshare(h: Handle)
      requires Valid() && extra.None? && h in handles && !IsUnique(h)
      modifies this
      ensures Valid() && extra.None? && handles.Keys == old(handles).Keys && IsUnique(h)
      ensures nextHandle == old(nextHandle)
      ensures MapOf(cells, handles[h]) == MapOf(old(cells), old(handles)[h])
      ensures OthersKept(old(cells), old(handles), cells, handles, h)
    {
      ghost var before := cells;
      var inner := cells[handles[h]].inner;
      assert ChainedAt(cells, handles[h]);
      if inner.parent.Some? {
        Acquire(inner.parent.value);
      }
      ghost var acquired := cells;
      var r := NewBox(inner);
      NewBoxKeeps(before, acquired, cells, r);
      CopySays(before, cells, handles[h], r);
      ghost var after := cells;
      Assign(h, r);
      AssignKeeps(before, after, cells, old(handles), handles, h, r);
      assert CountedAt(cells, handles, None, r);
    }

    /** Chains a new box, with one entry, in front of a shared one. */
    method ExpandChain(h: Handle, name: Name, value: Option<Value>)
      requires Valid() && extra.None? && h in handles && ShouldExpandChain(handles[h])
      modifies this
      ensures Valid() && extra.None? && handles.Keys == old(handles).Keys && nextHandle == old(nextHandle)
      ensures MapOf(cells, handles[h]) == Updated(MapOf(old(cells), old(handles)[h]), name, value)
      ensures OthersKept(old(cells), old(handles), cells, handles, h)
    {
      ghost var before := cells;
      var r := NewFront(handles[h], name, value);
      ghost var after := cells;
      Assign(h, r);
      AssignKeeps(before, after, cells, old(handles), handles, h, r);
    }

    /** Stores or removes: in place for a sole owner, not at all when nothing would
        compare different, otherwise after making a copy or a new front box. */
    method DoInsert(h: Handle, name: Name, value: Option<Value>)
      requires Valid() && extra.None? && h in handles
      modifies this
      ensures Valid() && extra.None? && handles.Keys == old(handles).Keys && nextHandle == old(nextHandle)
      ensures MapOf(cells, handles[h]) == Inserted(MapOf(old(cells), old(handles)[h]), old(IsUnique(h)), name, value)
      ensures OthersKept(old(cells), old(handles), cells, handles, h)
    {
      if IsUnique(h) {
        WriteInPlace(h, name, value);
        return;
      }
      var current := Get(h, name);
      if SameValue(current, value) {
        return;
      }
      if !ShouldExpandChain(handles[h]) {
        Unshare(h);
        WriteInPlace(h, name, value);
        return;
      }
      ExpandChain(h, name, value);
    }

    ghost function Now(): Spec
      requires Valid()
      reads this
    {
      Spec(AllMaps(cells, handles), nextHandle)
    }

    /** Any sequence of operations on any number of maps.  Every map is what it would be
        on its own if the run is careful, and in any case in what comparison sees. */
    method Run(ops: seq<Op>)
      requires Valid() && extra.None?
      modifies this
      ensures Valid() && extra.None?
      ensures CarefulRun(old(Now()), ops) ==> Now() == SpecRun(old(Now()), ops)
      ensures Shown(Now()) == Shown(SpecRun(old(Now()), ops)) && Now().next == SpecRun(old(Now()), ops).next
    {
      ghost var start := Now();
      for n := 0 to |ops|
        invariant Valid() && extra.None?
        invariant CarefulRun(start, ops[..n]) ==> Now() == SpecRun(start, ops[..n])
        invariant Shown(Now()) == Shown(SpecRun(start, ops[..n])) && Now().next == SpecRun(start, ops[..n]).next
      {
        ShownOfStep(SpecRun(start, ops[..n]), ops[n]);
        assert ops[..n + 1][..n] == ops[..n];
        CarefulLosesNothing(ops[n]);
        Perform(ops[n]);
      }
      assert ops[..|ops|] == ops;
    }

    /** One operation does what it would do without sharing, unless it stores into a
        shared box a value that differs only in what comparison ignores. */
    method Perform(op: Op)
      requires Valid() && extra.None?
      modifies this
      ensures Valid() && extra.None?
      ensures Now() == SpecStep(old(Now()), op) <==> !old(LosesWrite(op))
      ensures Shown(Now()) == ShownStep(Shown(old(Now())), old(Now()).next, op)
      ensures Now().next == SpecStep(old(Now()), op).next
    {
      ghost var c, hs, start := cells, handles, Now();
      ShownOfStep(start, op);
      if op.MakeDefault? {
        var h := Default();
        MapAdded(c, hs, cells, handles, h);
      } else if op.h in handles {
        match op {
          case Copy(h) =>
            var copy := Clone(h);
            MapAdded(c, hs, cells, handles, copy);
          case Discard(h) =>
            Drop(h);
          case Store(h, name, value) =>
            ghost var unique := IsUnique(h);
            Write(h, name, Some(value));
            StoreIsStep(start, Now(), h, name, value, unique);
          case Remove(h, name) =>
            ghost var unique := IsUnique(h);
            Write(h, name, None);
            RemoveIsStep(start, Now(), h, name, unique);
        }
      }
    }

    lemma CarefulLosesNothing(op: Op)
      requires Valid()
      ensures Careful(Now(), op) ==> !LosesWrite(op)
    {
    }

    ghost predicate LosesWrite(op: Op)
      requires Valid()
      reads this
    {
      op.Store? && op.h in handles && Loses(MapOf(cells, handles[op.h]), IsUnique(op.h), op.name, Some(op.value))
    }

    /** Insertion and removal, seen among all maps. */
    method Write(h: Handle, name: Name, value: Option<Value>)
      requires Valid() && extra.None? && h in handles
      modifies this
      ensures Valid() && extra.None? && nextHandle == old(nextHandle)
      ensures Now().maps == old(Now()).maps[h := Inserted(old(Now()).maps[h], old(IsUnique(h)), name, value)]
    {
      ghost var c, hs := cells, handles;
      DoInsert(h, name, value);
      MapChanged(c, hs, cells, handles, h);
    }

    method NewFront(shared: Ref, name: Name, value: Option<Value>) returns (r: Ref)
      requires Valid() && extra.None? && shared in cells && ShouldExpandChain(shared)
      modifies this`cells, this`extra, this`nextRef
      ensures Valid() && extra == Some(r) && SameContents(old(cells), cells)
      ensures forall x | x in old(cells) :: MapOf(cells, x) == MapOf(old(cells), x)
      ensures MapOf(cells, r) == Updated(MapOf(old(cells), shared), name, value)
    {
      ghost var before := cells;
      Acquire(shared);
      ghost var acquired := cells;
      r := NewBox(Inner(map[name := value], Some(shared), cells[shared].inner.ancestorCount + 1));
      NewBoxKeeps(before, acquired, cells, r);
      FrontSays(cells, r, name, value);
    }
  }

  /** `url(a.png)` in a style sheet at `base`. */
  function ImageFrom(base: string): Value {
    Value("url(a.png)", Ignored(base, false, "", Some(Variable(base, 1, 2, [], false))))
  }

  /** A map and its copy: storing into the copy a value that compares equal leaves the
      first value, whatever else the second one says. */
  method StoreIntoCopy(name: Name, first: Value, second: Value) returns (stored: Option<Value>)
    requires first.content == second.content
    ensures stored == Some(first)
  {
    var heap := new Heap();
    var h := StoreIntoNew(heap, name, first);
    var copy := heap.Clone(h);
    stored := StoreEqual(heap, copy, name, first, second);
  }

  method StoreIntoNew(heap: Heap, name: Name, value: Value) returns (h: Handle)
    requires heap.Valid() && heap.extra.None?
    modifies heap
    ensures heap.Valid() && heap.extra.None? && h in heap.handles
    ensures MapOf(heap.cells, heap.handles[h]) == map[name := value]
  {
    h := heap.Default();
    heap.DoInsert(h, name, Some(value));
  }

  method StoreEqual(heap: Heap, h: Handle, name: Name, first: Value, second: Value) returns (stored: Option<Value>)
    requires heap.Valid() && heap.extra.None? && h in heap.handles && !heap.IsUnique(h)
    requires MapOf(heap.cells, heap.handles[h]) == map[name := first] && first.content == second.content
    modifies heap
    ensures stored == Some(first)
  {
    heap.DoInsert(h, name, Some(second));
    stored := heap.Get(h, name);
  }

  /** One text from two base URLs: the second is lost. */
  method WriteIsLost() returns (stored: Option<Value>)
    ensures stored == Some(ImageFrom("https://a.example/"))
    ensures ImageFrom("https://a.example/") != ImageFrom("https://b.example/")
  {
    assert "https://a.example/"[8] != "https://b.example/"[8];
    stored := StoreIntoCopy("--img", ImageFrom("https://a.example/"), ImageFrom("https://b.example/"));
  }

  /** 0 and -0 compare equal: the second is lost. */
  method SignOfZeroIsLost() returns (stored: Option<Value>)
    ensures stored == Some(Value("0", Ignored("", false, "0", None)))
  {
    var plus, minus := Value("0", Ignored("", false, "0", None)), Value("0", Ignored("", false, "-0", None));
    stored := StoreIntoCopy("--n", plus, minus);
  }

  /** A new box changes nothing for the boxes that were there. */
  lemma NewBoxKeeps(before: map<Ref, Cell>, acquired: map<Ref, Cell>, after: map<Ref, Cell>, r: Ref)
    requires Chained(before) && Chained(after) && r !in before && r in after
    requires SameContents(before, acquired) && acquired.Keys == before.Keys && after == acquired[r := after[r]]
    ensures SameContents(before, after)
    ensures forall x | x in before :: MapOf(after, x) == MapOf(before, x)
  {
    forall x | x in before
      ensures MapOf(after, x) == MapOf(before, x)
    {
      ContentsKeepMaps(before, after, x);
    }
  }

  /** A copy says what the original says. */
  lemma CopySays(before: map<Ref, Cell>, after: map<Ref, Cell>, x: Ref, r: Ref)
    requires Chained(before) && Chained(after) && SameContents(before, after)
    requires x in before && r in after && after[r].inner == before[x].inner
    ensures MapOf(after, r) == MapOf(before, x)
  {
    assert ChainedAt(before, x) && ChainedAt(after, r);
    forall n
      ensures Lookup(after, r, n) == Lookup(before, x, n)
    {
      if before[x].inner.parent.Some? {
        ContentsKeepMaps(before, after, before[x].inner.parent.value);
      }
    }
  }

  /** From before the new box, over having it, to the map referring to it. */
  lemma AssignKeeps(before: map<Ref, Cell>, after: map<Ref, Cell>, cells: map<Ref, Cell>,
                    hs: map<Handle, Ref>, hs': map<Handle, Ref>, h: Handle, r: Ref)
    requires Chained(before) && Chained(after) && Chained(cells) && SameContents(before, after)
    requires h in hs && hs' == hs[h := r] && r in after
    requires forall k | k in hs :: hs[k] in before
    requires forall k | k in hs' :: hs'[k] in cells
    requires forall x | x in before :: MapOf(after, x) == MapOf(before, x)
    requires forall k | k in hs' :: MapOf(cells, hs'[k]) == MapOf(after, hs'[k])
    ensures MapOf(cells, hs'[h]) == MapOf(after, r)
    ensures OthersKept(before, hs, cells, hs', h)
  {
    assert hs'[h] == r;
    forall k | k in hs' && k != h
      ensures MapOf(cells, hs'[k]) == MapOf(before, hs[k])
    {
      assert hs'[k] == hs[k];
    }
  }

  lemma FrontSays(cells: map<Ref, Cell>, r: Ref, name: Name, value: Option<Value>)
    requires Chained(cells) && r in cells && cells[r].inner.parent.Some? && cells[r].inner.own == map[name := value]
    ensures ChainedAt(cells, r)
    ensures MapOf(cells, r) == Updated(MapOf(cells, cells[r].inner.parent.value), name, value)
  {
    assert ChainedAt(cells, r);
    assert forall n ::
      Lookup(cells, r, n) == if n == name then value else Lookup(cells, cells[r].inner.parent.value, n);
  }

  lemma SwapSound(cells: map<Ref, Cell>, handles: map<Handle, Ref>, h: Handle, r: Ref)
    requires Sound(cells, handles, Some(r)) && h in handles
    ensures Sound(cells, handles[h := r], Some(handles[h]))
  {
    var rest := handles - {h};
    assert handles == rest[h := handles[h]] && handles[h := r] == rest[h := r];
    forall x | x in cells
      ensures CountedAt(cells, handles[h := r], Some(handles[h]), x)
    {
      assert CountedAt(cells, handles, Some(r), x);
      OwnersWithHandle(cells, rest, h, handles[h], x);
      OwnersWithHandle(cells, rest, h, r, x);
    }
  }
}
