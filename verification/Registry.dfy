// The registry of measurement points in collectd's OML writer: a linked list, searched by name
// prefix, one OML measurement point for each node.
module Registry {
  import opened CStrings
  import opened Wrappers

  const HEADER := 6
  const MAX_VALUES := 64

  type CString = s: seq<char> | IsCString(s) witness []

  // ---------- Data sets and what OML makes of them ----------

  datatype Kind = Counter | Gauge | Derive | Absolute

  datatype DataSource = DataSource(name: CString, kind: Kind)

  datatype DataSet = DataSet(name: CString, sources: seq<DataSource>)

  type Bits = n: nat | n < 0x1_0000_0000_0000_0000

  // The strings may be missing.
  datatype ValueList = ValueList(
    time: Bits, host: Option<CString>, plugin: Option<CString>, pluginInstance: Option<CString>,
    kind: Option<CString>, kindInstance: Option<CString>, values: seq<Bits>)

  datatype Tag = Uint64 | Int64 | Double | Text

  // A column definition; End terminates a list of them.
  datatype Column = End | Column(name: CString, tag: Tag)

  // A value OML is given; a double is known by its bits.
  datatype Value = Unset | U64(n: Bits) | I64(i: int) | F64(bits: Bits) | Str(s: CString)

  function TagOf(k: Kind): Tag {
    match k
    case Counter => Int64
    case Gauge => Double
    case Derive => Int64
    case Absolute => Uint64
  }

  predicate HasTag(v: Value, t: Tag) {
    match t
    case Uint64 => v.U64?
    case Int64 => v.I64?
    case Double => v.F64?
    case Text => v.Str?
  }

  function Signed(b: Bits): int {
    if b < 0x8000_0000_0000_0000 then b else b - 0x1_0000_0000_0000_0000
  }

  function ValueOf(k: Kind, b: Bits): Value {
    match k
    case Counter => I64(Signed(b))
    case Gauge => F64(b)
    case Derive => I64(Signed(b))
    case Absolute => U64(b)
  }

  function Given(s: Option<CString>): CString {
    if s.None? then [] else s.value
  }

  const HEADER_COLUMNS := [
    Column("time", Uint64), Column("host", Text), Column("plugin", Text),
    Column("plugin_instance", Text), Column("type", Text), Column("type_instance", Text)]

  // The columns of a data set.
  function Columns(ds: DataSet): (cs: seq<Column>)
    ensures |cs| == HEADER + |ds.sources|
  {
    HEADER_COLUMNS + seq(|ds.sources|, i requires 0 <= i < |ds.sources| =>
      Column(ds.sources[i].name, TagOf(ds.sources[i].kind)))
  }

  // The k-th value of a row; what a row does not fill is unset.
  function Entry(ds: DataSet, vl: ValueList, k: nat): Value
    requires |ds.sources| <= |vl.values|
  {
    if k == 0 then U64(vl.time)
    else if k == 1 then Str(Given(vl.host))
    else if k == 2 then Str(Given(vl.plugin))
    else if k == 3 then Str(Given(vl.pluginInstance))
    else if k == 4 then Str(Given(vl.kind))
    else if k == 5 then Str(Given(vl.kindInstance))
    else if k < HEADER + |ds.sources| then ValueOf(ds.sources[k - HEADER].kind, vl.values[k - HEADER])
    else Unset
  }

  // The array of values one report is made of.
  function Row(ds: DataSet, vl: ValueList): (vs: seq<Value>)
    requires |ds.sources| <= |vl.values| < MAX_VALUES - HEADER
    ensures |vs| == MAX_VALUES
  {
    seq(MAX_VALUES, k requires 0 <= k => Entry(ds, vl, k))
  }

  // The bits of a signed value.
  predicate IsSigned(i: int, bits: Bits) {
    -0x8000_0000_0000_0000 <= i < 0x8000_0000_0000_0000 && (i == bits || i + 0x1_0000_0000_0000_0000 == bits)
  }

  // The value of a source, in the type its kind calls for.
  predicate Carries(v: Value, k: Kind, bits: Bits) {
    match k
    case Counter => v.I64? && IsSigned(v.i, bits)
    case Gauge => v == F64(bits)
    case Derive => v.I64? && IsSigned(v.i, bits)
    case Absolute => v == U64(bits)
  }

  // A row: time, the five strings or empty ones, the sources' values, and nothing behind them.
  lemma RowMeaning(ds: DataSet, vl: ValueList, row: seq<Value>)
    requires |ds.sources| <= |vl.values| < 58 && row == Row(ds, vl)
    ensures |row| == 64 && row[0] == U64(vl.time)
    ensures row[1] == Str(match vl.host case None => "" case Some(s) => s)
    ensures row[2] == Str(match vl.plugin case None => "" case Some(s) => s)
    ensures row[3] == Str(match vl.pluginInstance case None => "" case Some(s) => s)
    ensures row[4] == Str(match vl.kind case None => "" case Some(s) => s)
    ensures row[5] == Str(match vl.kindInstance case None => "" case Some(s) => s)
    ensures forall i :: 0 <= i < |ds.sources| ==> Carries(row[6 + i], ds.sources[i].kind, vl.values[i])
    ensures forall k :: 6 + |ds.sources| <= k < 64 ==> row[k] == Unset
  {
    forall i | 0 <= i < |ds.sources|
      ensures row[6 + i] == ValueOf(ds.sources[i].kind, vl.values[i])
    {
      assert row[6 + i] == Entry(ds, vl, 6 + i);
    }
  }

  // The columns: six of the header, then one for each source under its own name.
  lemma ColumnsMeaning(ds: DataSet, cs: seq<Column>)
    requires cs == Columns(ds)
    ensures |cs| == 6 + |ds.sources|
    ensures cs[0] == Column("time", Uint64) && cs[1] == Column("host", Text) && cs[2] == Column("plugin", Text)
    ensures cs[3] == Column("plugin_instance", Text) && cs[4] == Column("type", Text)
    ensures cs[5] == Column("type_instance", Text)
    ensures forall i :: 0 <= i < |ds.sources| ==>
              cs[6 + i] == Column(ds.sources[i].name,
                                  match ds.sources[i].kind
                                  case Counter => Int64
                                  case Gauge => Double
                                  case Derive => Int64
                                  case Absolute => Uint64)
  {
  }

  // Every column is given a value of its type.
  predicate Fits(cs: seq<Column>, vs: seq<Value>) {
    |cs| <= |vs| && forall k :: 0 <= k < |cs| ==> cs[k].Column? && HasTag(vs[k], cs[k].tag)
  }

  // The second data set has a source of the same type wherever the first has one.
  predicate Covers(created: DataSet, ds: DataSet) {
    && |created.sources| <= |ds.sources|
    && forall i :: 0 <= i < |created.sources| ==>
         TagOf(created.sources[i].kind) == TagOf(ds.sources[i].kind)
  }

  lemma EntryFits(created: DataSet, ds: DataSet, vl: ValueList, i: nat)
    requires i < |created.sources| && |ds.sources| <= |vl.values|
    ensures HasTag(Entry(ds, vl, HEADER + i), Columns(created)[HEADER + i].tag) <==>
            i < |ds.sources| && TagOf(created.sources[i].kind) == TagOf(ds.sources[i].kind)
  {
  }

  // A row fits the columns made for another data set exactly if it covers that data set.
  lemma RowFits(created: DataSet, ds: DataSet, vl: ValueList)
    requires |ds.sources| <= |vl.values| < MAX_VALUES - HEADER
    ensures Fits(Columns(created), Row(ds, vl)) <==> Covers(created, ds)
  {
    var cs, vs := Columns(created), Row(ds, vl);
    if |created.sources| > |ds.sources| {
      var k := HEADER + |ds.sources|;
      assert !HasTag(vs[k], cs[k].tag);
    } else {
      forall i | 0 <= i < |created.sources|
        ensures HasTag(vs[HEADER + i], cs[HEADER + i].tag) <==>
                TagOf(created.sources[i].kind) == TagOf(ds.sources[i].kind)
      {
        EntryFits(created, ds, vl, i);
      }
      if Fits(cs, vs) {
        forall i | 0 <= i < |created.sources|
          ensures TagOf(created.sources[i].kind) == TagOf(ds.sources[i].kind)
        {
          assert HasTag(vs[HEADER + i], cs[HEADER + i].tag);
        }
      }
      if Covers(created, ds) {
        forall k | HEADER <= k < |cs|
          ensures HasTag(vs[k], cs[k].tag)
        {
          assert HasTag(vs[HEADER + (k - HEADER)], cs[HEADER + (k - HEADER)].tag);
        }
      }
    }
  }

  // A data set's own rows fit, and rows of another one need not.
  lemma OwnRowFits(ds: DataSet, vl: ValueList)
    requires |ds.sources| <= |vl.values| < MAX_VALUES - HEADER
    ensures Fits(Columns(ds), Row(ds, vl))
  {
    RowFits(ds, ds, vl);
  }

  lemma OtherRowMayNotFit(vl: ValueList)
    requires |vl.values| == 1
    ensures !Fits(Columns(DataSet("load", [DataSource("value", Gauge)])),
                  Row(DataSet("load", [DataSource("value", Counter)]), vl))
  {
    var a, b := DataSet("load", [DataSource("value", Gauge)]), DataSet("load", [DataSource("value", Counter)]);
    assert TagOf(a.sources[0].kind) != TagOf(b.sources[0].kind);
    RowFits(a, b, vl);
  }

  // ---------- Names ----------

  // What strncmp and strncpy see of a name: all of it, or its first max characters.
  function Prefix(name: CString, max: nat): (p: CString)
    ensures p <= name && |p| <= max && (p == name || |p| == max)
  {
    if |name| <= max then name else name[..max]
  }

  // Two names have the same characters below max, and the same end unless both are longer.
  predicate AgreeBelow(a: CString, b: CString, max: nat) {
    && (|a| == |b| || (|a| >= max && |b| >= max))
    && forall i :: 0 <= i < max && i < |a| && i < |b| ==> a[i] == b[i]
  }

  // Names have one prefix exactly if they agree below max.
  lemma OnePrefix(a: CString, b: CString, max: nat)
    ensures Prefix(a, max) == Prefix(b, max) <==> AgreeBelow(a, b, max)
  {
    var p, q := Prefix(a, max), Prefix(b, max);
    assert forall i :: 0 <= i < |p| ==> p[i] == a[i];
    assert forall i :: 0 <= i < |q| ==> q[i] == b[i];
    if p == q {
      assert forall i :: 0 <= i < max && i < |a| && i < |b| ==> a[i] == p[i];
    }
  }

  // strncpy into an array of max characters.
  method Strncpy(name: CString, max: nat) returns (copy: seq<char>)
    ensures |copy| == max && CStr(copy) == Prefix(name, max)
    ensures CStr(copy) <= name && (CStr(copy) == name || |CStr(copy)| == max)
  {
    ghost var p := Prefix(name, max);
    var dst := new char[max];
    var i := 0;
    while i < max && i < |name|
      invariant 0 <= i <= |p| && forall j :: 0 <= j < i ==> dst[j] == name[j]
    {
      dst[i] := name[i];
      i := i + 1;
    }
    while i < max
      invariant |p| <= i <= max
      invariant forall j :: 0 <= j < i ==> dst[j] == if j < |p| then p[j] else NUL
    {
      dst[i] := NUL;
      i := i + 1;
    }
    copy := dst[..];
    assert copy[..|p|] == p;
    CStrIs(copy, p);
  }

  // strncmp(a, name, |a|) == 0, where a is the array of characters in a node.
  method SameName(a: seq<char>, name: CString) returns (same: bool)
    ensures same == (CStr(a) == Prefix(name, |a|))
    ensures same <==> CStr(a) <= name && (CStr(a) == name || |CStr(a)| == |a|)
  {
    ghost var p := Prefix(name, |a|);
    ghost var s := CStr(a);
    var i := 0;
    while i < |a|
      invariant 0 <= i <= |a| && i <= |s| && i <= |name|
      invariant forall j :: 0 <= j < i ==> s[j] == name[j]
    {
      var c := if i < |name| then name[i] else NUL;
      if a[i] != c {
        assert i < |s| ==> s[i] == a[i];
        return false;
      }
      if c == NUL {
        assert s == p;
        return true;
      }
      i := i + 1;
    }
    assert s == p;
    return true;
  }

  // ---------- The list ----------

  // What OML was told to set up, and what it was given.
  datatype Registration = Registration(name: seq<char>, columns: seq<Column>)

  datatype Injection = Injection(handle: nat, values: seq<Value>)

  predicate Names(regs: seq<Registration>, h: nat, p: seq<char>) {
    h < |regs| && regs[h].name == p
  }

  ghost predicate Known(regs: seq<Registration>, p: seq<char>) {
    exists h: nat :: Names(regs, h, p)
  }

  // No name is registered twice.
  ghost predicate Distinct(regs: seq<Registration>) {
    forall g: nat, h: nat :: g < |regs| && h < |regs| && regs[g].name == regs[h].name ==> g == h
  }

  // The registrations once a name has been looked up: it is added if it is new.
  ghost function LookedUp(regs: seq<Registration>, p: seq<char>, cs: seq<Column>): seq<Registration> {
    if Known(regs, p) then regs else regs + [Registration(p, cs)]
  }

  lemma NewNameKeepsDistinct(regs: seq<Registration>, r: Registration)
    requires Distinct(regs) && !Known(regs, r.name)
    ensures Distinct(regs + [r])
  {
    assert forall h: nat :: h < |regs| ==> Names(regs, h, regs[h].name);
  }

  // A node. Its array of characters and its table of columns are written before it is linked, and
  // never again.
  class MPoint {
    var name: seq<char>
    var defs: seq<Column>
    var handle: nat
    var next: MPoint?

    constructor () {
      name, defs, handle, next := [], [], 0, null;
    }

    // The loops of configure_mpoint.
    method Configure(ds: DataSet)
      modifies this`defs
      ensures defs == Columns(ds) + [End]
    {
      ghost var cs := Columns(ds);
      var a := new Column[|ds.sources| + HEADER + 1](_ => End);
      var i := 0;
      while i < HEADER
        invariant 0 <= i <= HEADER
        invariant forall j :: 0 <= j < i ==> a[j] == cs[j]
        invariant forall j :: i <= j < a.Length ==> a[j] == End
      {
        a[i] := HEADER_COLUMNS[i];
        i := i + 1;
      }
      i := 0;
      while i < |ds.sources|
        invariant 0 <= i <= |ds.sources|
        invariant forall j :: 0 <= j < HEADER + i ==> a[j] == cs[j]
        invariant forall j :: HEADER + i <= j < a.Length ==> a[j] == End
      {
        var tag;
        match ds.sources[i].kind {
          case Counter => tag := Int64;
          case Gauge => tag := Double;
          case Derive => tag := Int64;
          case Absolute => tag := Uint64;
        }
        a[i + HEADER] := Column(ds.sources[i].name, tag);
        i := i + 1;
      }
      assert a[..] == cs + [End];
      defs := a[..];
    }

    // The node holds what was registered.
    ghost predicate Holds(max: nat, r: Registration)
      reads this
    {
      |name| == max && CStr(name) == r.name && defs == r.columns + [End]
    }
  }

  // A node with its name and columns, under the handle they are registered with.
  method NewMPoint(max: nat, ds: DataSet, handle: nat) returns (mp: MPoint)
    ensures fresh(mp) && mp.handle == handle && mp.Holds(max, Registration(Prefix(ds.name, max), Columns(ds)))
  {
    mp := new MPoint();
    mp.name := Strncpy(ds.name, max);
    mp.Configure(ds);
    mp.handle := handle;
  }

  class Session {
    const max: nat
    var mpoint: MPoint?
    var initialized: bool
    // The measurement points OML knows, and the rows it was given.
    var registered: seq<Registration>
    var injected: seq<Injection>
    // The nodes in the order they were made; the list runs from the last to the first.
    ghost var nodes: seq<MPoint>

    constructor (max: nat)
      ensures Valid() && this.max == max && registered == [] && injected == [] && !initialized
    {
      this.max, mpoint, initialized, registered, injected, nodes := max, null, false, [], [], [];
    }

    // oml_init, once OML has answered.
    method Init(ok: bool)
      modifies this`initialized
      ensures initialized == ok
    {
      initialized := ok;
    }

    // The n-th node of them, or null.
    ghost function Nth(n: nat): MPoint?
      requires n <= |nodes|
      reads `nodes
    {
      if n == 0 then null else nodes[n - 1]
    }

    ghost predicate Linked()
      reads `mpoint, `nodes, nodes
    {
      && mpoint == Nth(|nodes|)
      && (nodes != [] ==> nodes[0].next == null)
      && forall g, h :: 0 <= g < h < |nodes| && h == g + 1 ==> nodes[h].next == nodes[g]
    }

    // Every node is registered under its own name, and no name is registered twice.
    ghost predicate Valid()
      reads `mpoint, `registered, `nodes, nodes
    {
      && Linked() && |registered| == |nodes| && Distinct(registered)
      && forall h {:trigger nodes[h]} :: 0 <= h < |nodes| ==> nodes[h].handle == h && nodes[h].Holds(max, registered[h])
    }

    method FindMPointStruct(name: CString) returns (mp: MPoint?)
      requires Valid()
      ensures mp == null ==> !Known(registered, Prefix(name, max))
      ensures mp != null ==> Names(registered, mp.handle, Prefix(name, max)) && nodes[mp.handle] == mp
    {
      ghost var p := Prefix(name, max);
      mp := mpoint;
      ghost var n := |nodes|;
      while mp != null
        invariant 0 <= n <= |nodes| && mp == Nth(n)
        invariant forall h :: n <= h < |nodes| ==> registered[h].name != p
        decreases n
      {
        assert nodes[n - 1].Holds(max, registered[n - 1]);
        var same := SameName(mp.name, name);
        if same {
          return;
        }
        assert registered[n - 1].name != p;
        mp := mp.next;
        n := n - 1;
      }
    }

    method CreateMPoint(ds: DataSet) returns (mp: MPoint)
      requires Valid() && !Known(registered, Prefix(ds.name, max))
      modifies this`mpoint, this`registered, this`nodes
      ensures Valid() && nodes == old(nodes) + [mp] && mp.handle == |old(registered)|
      ensures registered == old(registered) + [Registration(Prefix(ds.name, max), Columns(ds))]
    {
      var r := Registration(Prefix(ds.name, max), Columns(ds));
      mp := NewMPoint(max, ds, |registered|);
      Link(mp, r);
    }

    // The registered node becomes the first of the list.
    method Link(mp: MPoint, r: Registration)
      requires Valid() && !Known(registered, r.name) && mp !in nodes
      requires mp.handle == |registered| && mp.Holds(max, r)
      modifies this`mpoint, this`registered, this`nodes, mp`next
      ensures Valid() && nodes == old(nodes) + [mp] && registered == old(registered) + [r]
      ensures mp.handle == old(mp.handle)
    {
      NewNameKeepsDistinct(registered, r);
      registered := registered + [r];
      mp.next := mpoint;
      mpoint := mp;
      nodes := nodes + [mp];
      assert mp.Holds(max, r);
      assert forall h {:trigger nodes[h]} :: 0 <= h < |old(nodes)| ==> nodes[h] == old(nodes)[h] && nodes[h] != mp;
    }

    // The measurement point of a data set: found, or created if its name is new.
    method FindMPoint(ds: DataSet) returns (mp: MPoint)
      requires Valid()
      modifies this`mpoint, this`registered, this`nodes
      ensures Valid() && Names(registered, mp.handle, Prefix(ds.name, max)) && nodes[mp.handle] == mp
      ensures registered == LookedUp(old(registered), Prefix(ds.name, max), Columns(ds))
      ensures registered[mp.handle].name <= ds.name
      ensures registered[mp.handle].name == ds.name || |registered[mp.handle].name| == max
    {
      var found := FindMPointStruct(ds.name);
      if found == null {
        mp := CreateMPoint(ds);
      } else {
        mp := found;
      }
    }

    // oml_write. The data set has no more sources than there are values.
    method Write(ds: DataSet, vl: ValueList) returns (status: int, ghost handle: nat)
      requires Valid() && |ds.sources| <= |vl.values|
      modifies this`mpoint, this`registered, this`nodes, this`injected
      ensures Valid() && Names(registered, handle, Prefix(ds.name, max))
      ensures registered == LookedUp(old(registered), Prefix(ds.name, max), Columns(ds))
      ensures registered[handle].name <= ds.name
      ensures registered[handle].name == ds.name || |registered[handle].name| == max
      ensures status == if initialized && |vl.values| >= 58 then -1 else 0
      ensures injected == old(injected) + if initialized && |vl.values| < 58
                                          then [Injection(handle, Row(ds, vl))] else []
    {
      var mp := FindMPoint(ds);
      status, handle := 0, mp.handle;
      if initialized {
        if |vl.values| >= MAX_VALUES - HEADER {
          status := -1;
        } else {
          Inject(mp.handle, ds, vl);
        }
      }
    }

    // The values are filled in and injected.
    method Inject(handle: nat, ds: DataSet, vl: ValueList)
      requires |ds.sources| <= |vl.values| < MAX_VALUES - HEADER
      modifies this`injected
      ensures injected == old(injected) + [Injection(handle, Row(ds, vl))]
    {
      var v := BuildRow(ds, vl);
      injected := injected + [Injection(handle, v)];
    }
  }

  // Two data sets get one measurement point exactly if their names agree below the limit.
  method OnePoint(s: Session, a: DataSet, v: ValueList, b: DataSet, w: ValueList) returns (ghost g: nat, ghost h: nat)
    requires s.Valid() && |a.sources| <= |v.values| && |b.sources| <= |w.values|
    modifies s`mpoint, s`registered, s`nodes, s`injected
    ensures s.Valid() && g < |s.registered| && h < |s.registered|
    ensures s.injected == old(s.injected)
                          + (if s.initialized && |v.values| < 58 then [Injection(g, Row(a, v))] else [])
                          + if s.initialized && |w.values| < 58 then [Injection(h, Row(b, w))] else []
    ensures g == h <==> AgreeBelow(a.name, b.name, s.max)
  {
    var status;
    status, g := s.Write(a, v);
    ghost var regs := s.registered;
    status, h := s.Write(b, w);
    assert regs <= s.registered && s.registered[g] == regs[g];
    OnePrefix(a.name, b.name, s.max);
  }

  // Two data sets whose names have one prefix share the measurement point made for the first of
  // them, and a row of the second fits it exactly if the second covers the first.
  method SharedPoint(s: Session, a: DataSet, v: ValueList, b: DataSet, w: ValueList)
    requires s.Valid() && s.initialized && !Known(s.registered, Prefix(a.name, s.max))
    requires Prefix(a.name, s.max) == Prefix(b.name, s.max)
    requires |a.sources| <= |v.values| < MAX_VALUES - HEADER && |b.sources| <= |w.values| < MAX_VALUES - HEADER
    modifies s`mpoint, s`registered, s`nodes, s`injected
    ensures s.Valid() && s.registered == old(s.registered) + [Registration(Prefix(a.name, s.max), Columns(a))]
    ensures var h := |old(s.registered)|;
            s.injected == old(s.injected) + [Injection(h, Row(a, v)), Injection(h, Row(b, w))]
    ensures Fits(s.registered[|s.registered| - 1].columns, s.injected[|s.injected| - 1].values) <==> Covers(a, b)
  {
    ghost var p := Prefix(a.name, s.max);
    ghost var regs := s.registered + [Registration(p, Columns(a))];
    NewNameKeepsDistinct(s.registered, Registration(p, Columns(a)));
    assert Names(regs, |s.registered|, p);
    var _, g := s.Write(a, v);
    assert s.registered == regs && Known(regs, p) && g == |regs| - 1;
    var _, h := s.Write(b, w);
    assert h == |regs| - 1;
    RowFits(a, b, w);
  }

  // The first six values.
  method FillHeader(v: array<Value>, vl: ValueList)
    requires v.Length == MAX_VALUES
    modifies v
    ensures v[..HEADER] == [U64(vl.time), Str(Given(vl.host)), Str(Given(vl.plugin)), Str(Given(vl.pluginInstance)),
                            Str(Given(vl.kind)), Str(Given(vl.kindInstance))]
    ensures forall j :: HEADER <= j < MAX_VALUES ==> v[j] == old(v[j])
  {
    v[0] := U64(vl.time);
    v[1] := Str(if vl.host.Some? then vl.host.value else []);
    v[2] := Str(if vl.plugin.Some? then vl.plugin.value else []);
    v[3] := Str(if vl.pluginInstance.Some? then vl.pluginInstance.value else []);
    v[4] := Str(if vl.kind.Some? then vl.kind.value else []);
    v[5] := Str(if vl.kindInstance.Some? then vl.kindInstance.value else []);
  }

  // The part of oml_write that fills the array of values.
  method BuildRow(ds: DataSet, vl: ValueList) returns (row: seq<Value>)
    requires |ds.sources| <= |vl.values| < MAX_VALUES - HEADER
    ensures row == Row(ds, vl)
  {
    var v := new Value[MAX_VALUES](_ => Unset);
    FillHeader(v, vl);
    ghost var header := v[..HEADER];
    var i := 0;
    while i < |ds.sources|
      invariant 0 <= i <= |ds.sources| && v[..HEADER] == header
      invariant forall j :: 0 <= j < i ==> v[HEADER + j] == ValueOf(ds.sources[j].kind, vl.values[j])
      invariant forall j :: HEADER + i <= j < MAX_VALUES ==> v[j] == Unset
    {
      var bits, e := vl.values[i], Unset;
      match ds.sources[i].kind {
        case Counter => e := I64(Signed(bits));
        case Gauge => e := F64(bits);
        case Derive => e := I64(Signed(bits));
        case Absolute => e := U64(bits);
      }
      v[i + HEADER] := e;
      i := i + 1;
    }
    row := v[..];
    RowIs(ds, vl, row);
  }

  lemma RowIs(ds: DataSet, vl: ValueList, row: seq<Value>)
    requires |ds.sources| <= |vl.values| < MAX_VALUES - HEADER && |row| == MAX_VALUES
    requires row[..HEADER] == [U64(vl.time), Str(Given(vl.host)), Str(Given(vl.plugin)), Str(Given(vl.pluginInstance)),
                               Str(Given(vl.kind)), Str(Given(vl.kindInstance))]
    requires forall j :: 0 <= j < |ds.sources| ==> row[HEADER + j] == ValueOf(ds.sources[j].kind, vl.values[j])
    requires forall j :: HEADER + |ds.sources| <= j < MAX_VALUES ==> row[j] == Unset
    ensures row == Row(ds, vl)
  {
    forall k | 0 <= k < MAX_VALUES
      ensures row[k] == Entry(ds, vl, k)
    {
      if k < HEADER {
        assert row[k] == row[..HEADER][k];
      } else if k < HEADER + |ds.sources| {
        assert row[HEADER + (k - HEADER)] == ValueOf(ds.sources[k - HEADER].kind, vl.values[k - HEADER]);
      }
    }
  }
}
