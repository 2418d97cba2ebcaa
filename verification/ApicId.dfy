/** How the APIC ID of a thread is packed, and the table from APIC IDs to physical core complexes. */
module ApicId {
  import opened Word
  import opened Limbs
  import opened Bits

  const MAX_APIC_IDS: nat := 512
  const MAX_CCDS: nat := 16
  const ZERO_PADDING: nat := 4
  const ENTRY_VALID: nat := 0x80

  /** What the package registers say: the largest field values, and whether cores have two threads. */
  datatype Package = Package(initpkg7: uint32, smt: bool) {
    function MaxCore(): nat {
      initpkg7 / 0x1_0000 % 16
    }

    function MaxCcx(): nat {
      initpkg7 / 0x10_0000 % 2
    }

    function MaxCcd(): nat {
      initpkg7 / 0x20_0000 % 16
    }

    function MaxSocket(): nat {
      initpkg7 / 0x200_0000 % 4
    }

    predicate SixteenThreads() {
      initpkg7 / 0x800 % 2 == 1
    }
  }

  /** Bit positions of the fields of an APIC ID; the thread is at position 0, and `top` is the total width. */
  datatype Format = Format(core: nat, ccx: nat, ccd: nat, socket: nat, top: nat)

  datatype FormatResult = Accepted(format: Format) | HardwarePlatform

  /** A thread, by its logical numbers. */
  datatype Logical = Logical(socket: nat, ccd: nat, ccx: nat, core: nat, thread: nat)

  function FormatOf(p: Package): FormatResult {
    if p.initpkg7 == 0 then HardwarePlatform
    else
      var core := if p.smt then 1 else 0;
      var end := core + Width(p.MaxCore());
      var ccx := if p.SixteenThreads() && end < ZERO_PADDING then ZERO_PADDING else end;
      var ccd := ccx + Width(p.MaxCcx());
      var socket := ccd + Width(p.MaxCcd());
      var top := socket + Width(p.MaxSocket());
      if top >= 32 then HardwarePlatform else Accepted(Format(core, ccx, ccd, socket, top))
  }

  /** The only package that is refused is the one without registers; an ID never needs more than twelve bits. */
  lemma FormatAlwaysFits(p: Package)
    ensures FormatOf(p) == HardwarePlatform <==> p.initpkg7 == 0
    ensures FormatOf(p).Accepted? ==> FormatOf(p).format.top <= 12
  {
    assert Pow2(4) == 16 && Pow2(2) == 4 && Pow2(1) == 2;
    WidthBound(p.MaxCore(), 4);
    WidthBound(p.MaxCcx(), 1);
    WidthBound(p.MaxCcd(), 4);
    WidthBound(p.MaxSocket(), 2);
  }

  /** The least width that holds numbers up to `most`. */
  predicate LeastWidth(most: nat, w: nat) {
    most < Pow2(w) && (w > 0 ==> Pow2(w - 1) <= most)
  }

  lemma FirstFour(most: nat, w: nat, n: nat)
    requires LeastWidth(most, w)
    ensures most < Pow2(n) <==> w <= n
  {
    if w <= n {
      Pow2Mono(w, n);
    } else {
      Pow2Mono(n, w - 1);
    }
  }

  /** Each field starts right above the one below it, and is no wider than it must be; in sixteen-thread mode the field
      of the complex starts at bit 4 if the fields below it end before that. */
  lemma FieldsAbut(p: Package, f: Format)
    requires FormatOf(p) == Accepted(f)
    ensures LeastWidth(if p.smt then 1 else 0, f.core)
    ensures f.core <= f.ccx <= f.ccd <= f.socket <= f.top
    ensures if p.SixteenThreads() && Pow2(4 - f.core) > p.MaxCore() then f.ccx == 4
            else LeastWidth(p.MaxCore(), f.ccx - f.core)
    ensures p.SixteenThreads() ==> f.ccx >= 4
    ensures LeastWidth(p.MaxCcx(), f.ccd - f.ccx) && LeastWidth(p.MaxCcd(), f.socket - f.ccd)
    ensures LeastWidth(p.MaxSocket(), f.top - f.socket)
  {
    assert Pow2(0) == 1 && Pow2(1) == 2;
    FirstFour(p.MaxCore(), Width(p.MaxCore()), 4 - f.core);
  }

  /** Where the package register has its fields. */
  lemma PackageBits(p: Package, k: nat)
    ensures Bit(p.MaxCore(), k) <==> k < 4 && Bit(p.initpkg7, 16 + k)
    ensures Bit(p.MaxCcx(), k) <==> k < 1 && Bit(p.initpkg7, 20 + k)
    ensures Bit(p.MaxCcd(), k) <==> k < 4 && Bit(p.initpkg7, 21 + k)
    ensures Bit(p.MaxSocket(), k) <==> k < 2 && Bit(p.initpkg7, 25 + k)
    ensures p.SixteenThreads() <==> Bit(p.initpkg7, 11)
  {
    SmallPowers();
    FieldBits(p.initpkg7, 16, 4, p.initpkg7 / 0x1_0000, k);
    FieldBits(p.initpkg7, 20, 1, p.initpkg7 / 0x10_0000, k);
    FieldBits(p.initpkg7, 21, 4, p.initpkg7 / 0x20_0000, k);
    FieldBits(p.initpkg7, 25, 2, p.initpkg7 / 0x200_0000, k);
    BitByDivision(p.initpkg7, 11);
  }

  lemma SmallPowers()
    ensures Pow2(1) == 2 && Pow2(2) == 4 && Pow2(4) == 16
    ensures Pow2(11) == 0x800 && Pow2(12) == 0x1000 && Pow2(14) == 0x4000 && Pow2(16) == 0x1_0000
    ensures Pow2(18) == 0x4_0000 && Pow2(19) == 0x8_0000 && Pow2(20) == 0x10_0000 && Pow2(21) == 0x20_0000
    ensures Pow2(25) == 0x200_0000
  {
    assert Pow2(11) == 0x800;
    Pow2Add(11, 5);
    assert Pow2(5) == 32;
    Pow2Add(16, 5);
    Pow2Add(21, 4);
  }

  /** The core, complex, die and thread numbers are within what the package declares. */
  predicate Within(p: Package, t: Logical) {
    t.core <= p.MaxCore() && t.ccx <= p.MaxCcx() && t.ccd <= p.MaxCcd() && t.thread < if p.smt then 2 else 1
  }

  function Shift(x: nat, n: nat): nat {
    Pow2(n) * x
  }

  /** The APIC ID of a thread: the fields at their positions, combined by or. */
  function LogicalId(p: Package, f: Format, t: Logical): nat {
    Combine(p.MaxCcx() + 1 > 1, if p.smt then t.thread else 0, Shift(t.core, f.core), Shift(t.ccx, f.ccx),
            Shift(t.ccd, f.ccd), Shift(t.socket, f.socket))
  }

  function Combine(twoComplexes: bool, thread: nat, core: nat, ccx: nat, ccd: nat, socket: nat): nat {
    var id := BitOr(thread, BitOr(core, ccd));
    BitOr(if twoComplexes then BitOr(id, ccx) else id, socket)
  }

  /** A field put above `n` occupied bits stays below bit `m`. */
  lemma Layer(low: nat, x: nat, n: nat, w: nat, m: nat)
    requires low < Pow2(n) && x < Pow2(w) && n + w <= m
    ensures low + Shift(x, n) < Pow2(m)
  {
    Pow2Add(n, w);
    Pow2Mono(n + w, m);
    LayerBound(low, x, Pow2(n), Pow2(w));
  }

  lemma LayerBound(low: nat, x: nat, p: nat, q: nat)
    requires low < p && x < q
    ensures low + p * x < p * q
  {
    MulLe(x + 1, q, p);
  }

  lemma Separate(low: nat, low': nat, x: nat, x': nat, n: nat)
    requires low < Pow2(n) && low' < Pow2(n)
    requires low + Shift(x, n) == low' + Shift(x', n)
    ensures low == low' && x == x'
  {
    DivModUnique(low + Shift(x, n), Pow2(n), x, low);
    DivModUnique(low' + Shift(x', n), Pow2(n), x', low');
  }

  /** The ID below the die field, below the socket field, and in whole. */
  ghost function Cores(p: Package, f: Format, t: Logical): nat {
    t.thread + Shift(t.core, f.core)
  }

  ghost function Complexes(p: Package, f: Format, t: Logical): nat {
    Cores(p, f, t) + Shift(t.ccx, f.ccx)
  }

  ghost function Dies(p: Package, f: Format, t: Logical): nat {
    Complexes(p, f, t) + Shift(t.ccd, f.ccd)
  }

  lemma Layers(p: Package, f: Format, t: Logical)
    requires FormatOf(p) == Accepted(f) && Within(p, t)
    ensures t.thread < Pow2(f.core) && Cores(p, f, t) < Pow2(f.ccx) && Complexes(p, f, t) < Pow2(f.ccd)
    ensures Dies(p, f, t) < Pow2(f.socket)
  {
    assert Pow2(1) == 2 && Pow2(0) == 1;
    Pow2Mono(Width(p.MaxCore()), Width(p.MaxCore()));
    Layer(t.thread, t.core, f.core, Width(p.MaxCore()), f.ccx);
    Layer(Cores(p, f, t), t.ccx, f.ccx, Width(p.MaxCcx()), f.ccd);
    Layer(Complexes(p, f, t), t.ccd, f.ccd, Width(p.MaxCcd()), f.socket);
  }

  /** The fields never overlap: combining them is adding them. */
  lemma IdIsSum(p: Package, f: Format, t: Logical)
    requires FormatOf(p) == Accepted(f) && Within(p, t)
    ensures LogicalId(p, f, t) == Dies(p, f, t) + Shift(t.socket, f.socket)
  {
    Layers(p, f, t);
    var ab := Place(t.thread, t.core, f.core, Shift(t.core, f.core));
    var abc := Place(ab, t.ccx, f.ccx, Shift(t.ccx, f.ccx));
    var abcd := Place(abc, t.ccd, f.ccd, Shift(t.ccd, f.ccd));
    var all := Place(abcd, t.socket, f.socket, Shift(t.socket, f.socket));
    OneComplex(p.MaxCcx(), t.ccx, f.ccx);
    InAnyOrder(p.MaxCcx() + 1 > 1, t.thread, Shift(t.core, f.core), Shift(t.ccx, f.ccx), Shift(t.ccd, f.ccd),
               Shift(t.socket, f.socket), ab, abc, abcd);
  }

  lemma OneComplex(most: nat, x: nat, n: nat)
    requires x <= most
    ensures !(most + 1 > 1) ==> Shift(x, n) == 0
  {
  }

  /** Put a field above the bits that are in use. */
  lemma Place(low: nat, x: nat, n: nat, shifted: nat) returns (sum: nat)
    requires low < Pow2(n) && shifted == Shift(x, n)
    ensures sum == low + shifted && sum == BitOr(low, shifted)
  {
    OrDisjoint(low, x, n, shifted);
    sum := low + shifted;
  }

  /** The order in which the fields are combined does not matter. */
  lemma OrRegroup(a: nat, b: nat, c: nat, d: nat, ab: nat, abc: nat)
    requires BitOr(a, b) == ab && BitOr(ab, c) == abc
    ensures BitOr(BitOr(a, BitOr(b, d)), c) == BitOr(abc, d)
    ensures BitOr(a, BitOr(b, d)) == BitOr(ab, d)
  {
    OrAssociative(a, b, d);
    SwapLast(ab, c, d);
  }

  lemma SwapLast(a: nat, c: nat, d: nat)
    ensures BitOr(BitOr(a, d), c) == BitOr(BitOr(a, c), d)
  {
    OrAssociative(a, d, c);
    OrAssociative(a, c, d);
    OrCommutative(c, d);
  }

  lemma InAnyOrder(twoComplexes: bool, a: nat, b: nat, c: nat, d: nat, e: nat, ab: nat, abc: nat, abcd: nat)
    requires BitOr(a, b) == ab && BitOr(ab, c) == abc && BitOr(abc, d) == abcd
    requires !twoComplexes ==> c == 0
    ensures Combine(twoComplexes, a, b, c, d, e) == BitOr(abcd, e)
  {
    OrRegroup(a, b, c, d, ab, abc);
    if !twoComplexes {
      OrZero(ab);
      OrCommutative(0, ab);
    }
  }

  /** Different threads have different IDs, and no ID reaches beyond the declared width. */
  lemma IdsDiffer(p: Package, f: Format, t: Logical, u: Logical)
    requires FormatOf(p) == Accepted(f) && Within(p, t) && Within(p, u)
    ensures LogicalId(p, f, t) == LogicalId(p, f, u) <==> t == u
    ensures t.socket <= p.MaxSocket() ==> LogicalId(p, f, t) < Pow2(f.top)
  {
    IdIsSum(p, f, t);
    IdIsSum(p, f, u);
    Layers(p, f, t);
    Layers(p, f, u);
    if t.socket <= p.MaxSocket() {
      Layer(Dies(p, f, t), t.socket, f.socket, Width(p.MaxSocket()), f.top);
    }
    if LogicalId(p, f, t) == LogicalId(p, f, u) {
      Separate(Dies(p, f, t), Dies(p, f, u), t.socket, u.socket, f.socket);
      Separate(Complexes(p, f, t), Complexes(p, f, u), t.ccd, u.ccd, f.ccd);
      Separate(Cores(p, f, t), Cores(p, f, u), t.ccx, u.ccx, f.ccx);
      Separate(t.thread, u.thread, t.core, u.core, f.core);
    }
  }

  /** A core, by its physical numbers. */
  datatype Core = Core(ccd: nat, core: nat)

  datatype ReadResult = Value(value: uint32) | NoRegister

  /** One socket: which cores are enabled, and the package register of a core of a complex. */
  datatype Socket = Socket(enabled: Core -> bool, initpkg0: (nat, nat) -> ReadResult, coresPerCcd: nat,
                           twoComplexes: bool) {
    function FirstComplex(): nat {
      coresPerCcd / 2
    }

    /** Physical number of the complex that a core belongs to. */
    function PhysicalCcx(c: Core): nat {
      if twoComplexes then 2 * c.ccd + if c.core < FirstComplex() then 0 else 1 else c.ccd
    }

    function Register(c: Core): ReadResult {
      initpkg0(PhysicalCcx(c), if twoComplexes && c.core >= FirstComplex() then c.core - FirstComplex() else c.core)
    }

    /** The enabled ones of the first `n` cores of a die. */
    function Row(ccd: nat, n: nat): seq<Core> {
      if n == 0 then []
      else Row(ccd, n - 1) + if enabled(Core(ccd, n - 1)) then [Core(ccd, n - 1)] else []
    }

    /** The enabled cores of the first `n` dies. */
    function Rows(n: nat): seq<Core> {
      if n == 0 then [] else Rows(n - 1) + Row(n - 1, coresPerCcd)
    }
  }

  lemma InBoth(a: seq<Core>, b: seq<Core>, c: Core)
    ensures c in a + b <==> c in a || c in b
  {
  }

  /** A core of a die is in its row exactly if it is enabled. */
  lemma {:induction false} RowIs(s: Socket, ccd: nat, n: nat, c: Core)
    ensures c in s.Row(ccd, n) <==> c.ccd == ccd && c.core < n && s.enabled(c)
  {
    if n > 0 {
      RowIs(s, ccd, n - 1, c);
      var last := if s.enabled(Core(ccd, n - 1)) then [Core(ccd, n - 1)] else [];
      InBoth(s.Row(ccd, n - 1), last, c);
    }
  }

  lemma LastRow(s: Socket, n: nat, c: Core)
    requires n > 0
    ensures c in s.Rows(n) <==> c in s.Rows(n - 1) || c in s.Row(n - 1, s.coresPerCcd)
  {
    InBoth(s.Rows(n - 1), s.Row(n - 1, s.coresPerCcd), c);
  }

  /** The rows hold exactly the enabled cores. */
  lemma {:induction false} RowsAre(s: Socket, n: nat, c: Core)
    ensures c in s.Rows(n) <==> c.ccd < n && c.core < s.coresPerCcd && s.enabled(c)
  {
    if n > 0 {
      RowsAre(s, n - 1, c);
      RowIs(s, n - 1, s.coresPerCcd, c);
      LastRow(s, n, c);
    }
  }

  /** With two complexes of eight cores on a die, the complexes are numbered through, and so are the cores of each. */
  lemma ComplexOfCore(s: Socket, ccd: nat, complex: nat, core: nat)
    requires s.twoComplexes ==> s.coresPerCcd == 16 && complex < 2 && core < 8
    requires !s.twoComplexes ==> complex == 0
    ensures var c := Core(ccd, 8 * complex + core);
            && s.PhysicalCcx(c) == (if s.twoComplexes then 2 * ccd + complex else ccd)
            && s.Register(c) == s.initpkg0(if s.twoComplexes then 2 * ccd + complex else ccd, core)
  {
  }

  /** A thread of the core with register value `x`. */
  function LogicalOf(x: uint32, thread: nat): Logical {
    Logical(x / 0x1000 % 4, x / 0x8_0000 % 16, x / 0x4_0000 % 2, x / 0x4000 % 16, thread)
  }

  /** Where the package register of a core has its fields. */
  lemma LogicalBits(x: uint32, thread: nat, k: nat)
    ensures var l := LogicalOf(x, thread);
            && (Bit(l.socket, k) <==> k < 2 && Bit(x, 12 + k)) && (Bit(l.core, k) <==> k < 4 && Bit(x, 14 + k))
            && (Bit(l.ccx, k) <==> k < 1 && Bit(x, 18 + k)) && (Bit(l.ccd, k) <==> k < 4 && Bit(x, 19 + k))
  {
    SmallPowers();
    FieldBits(x, 12, 2, x / 0x1000, k);
    FieldBits(x, 14, 4, x / 0x4000, k);
    FieldBits(x, 18, 1, x / 0x4_0000, k);
    FieldBits(x, 19, 4, x / 0x8_0000, k);
  }

  predicate InRange(p: Package, x: uint32) {
    LogicalOf(x, 0).core <= p.MaxCore() && LogicalOf(x, 0).ccd <= p.MaxCcd()
  }

  predicate Usable(p: Package, s: Socket, c: Core) {
    s.Register(c).Value? && InRange(p, s.Register(c).value)
  }

  /** What the table says of a core of complex `ccx` of a socket. */
  function EntryOf(ccx: nat, socket: nat): (e: uint8)
    ensures e >= ENTRY_VALID
  {
    Stored(BitOr(ccx, Shift(socket, 4)) % 256)
  }

  function Stored(lookup: uint8): (e: uint8)
    ensures e >= ENTRY_VALID
  {
    assert Pow2(8) == 256;
    OrBound(lookup, ENTRY_VALID, 8);
    BitOr(lookup, ENTRY_VALID)
  }

  /** With at most sixteen complexes on a socket, an entry gives back the socket and the complex. */
  lemma EntryPosition(ccx: nat, socket: nat)
    requires ccx < 16 && socket < 4
    ensures EntryOf(ccx, socket) == ENTRY_VALID + 16 * socket + ccx
  {
    var lookup := SocketAbove(ccx, socket);
    NoTruncation(lookup);
    ValidFlag(lookup);
  }

  lemma NoTruncation(lookup: nat)
    requires lookup < 256
    ensures lookup % 256 == lookup
  {
  }

  lemma SocketAbove(ccx: nat, socket: nat) returns (lookup: nat)
    requires ccx < 16
    ensures lookup == BitOr(ccx, Shift(socket, 4)) && lookup == 16 * socket + ccx
  {
    assert Pow2(4) == 16;
    lookup := Place(ccx, socket, 4, Shift(socket, 4));
  }

  lemma ValidFlag(lookup: uint8)
    requires lookup < 128
    ensures Stored(lookup) == lookup + ENTRY_VALID
  {
    SevenBits();
    FlagAbove(lookup, ENTRY_VALID, 7);
  }

  lemma SevenBits()
    ensures Pow2(7) == 128
  {
  }

  lemma FlagAbove(lookup: nat, flag: nat, n: nat)
    requires flag == Pow2(n) && lookup < flag
    ensures BitOr(lookup, flag) == lookup + flag
  {
    OrDisjoint(lookup, 1, n, flag);
  }

  /** What one core puts into the table: the IDs of its threads, and the entry at those places. */
  datatype Line = Line(ids: seq<nat>, entry: uint8)

  function LineOf(p: Package, f: Format, s: Socket, c: Core): Line
    requires s.Register(c).Value?
  {
    var x := s.Register(c).value;
    var id := LogicalId(p, f, LogicalOf(x, 0));
    Line(if p.smt then [id, LogicalId(p, f, LogicalOf(x, 1))] else [id],
         EntryOf(s.PhysicalCcx(c), LogicalOf(x, 0).socket))
  }

  ghost predicate Taken(lines: seq<Line>, a: nat) {
    exists i :: 0 <= i < |lines| && a in lines[i].ids
  }

  /** Every place of the line holds its entry. */
  ghost predicate Holds(table: seq<uint8>, line: Line)
    requires |table| == MAX_APIC_IDS
  {
    line.entry != 0 && forall a :: a in line.ids ==> a < MAX_APIC_IDS && table[a] == line.entry
  }

  /** The table holds exactly these lines. */
  ghost predicate Lists(lines: seq<Line>, table: seq<uint8>) {
    && |table| == MAX_APIC_IDS
    && (forall i :: 0 <= i < |lines| ==> Holds(table, lines[i]))
    && (forall a: nat :: a < MAX_APIC_IDS && table[a] != 0 ==> Taken(lines, a))
  }

  /** An ID of the line is too large or in use already. */
  ghost predicate Clashes(before: seq<Line>, line: Line) {
    exists a :: a in line.ids && (a >= MAX_APIC_IDS || Taken(before, a))
  }

  /** Enter the threads of one core, unless one of their places is taken. */
  method EnterLine(smt: bool, id: nat, id1: nat, entry: uint8, table: array<uint8>, ghost lines: seq<Line>)
    returns (entered: bool)
    requires Lists(lines, table[..]) && entry != 0
    modifies table
    ensures entered <==> !Clashes(lines, Line(if smt then [id, id1] else [id], entry))
    ensures entered ==> Lists(lines + [Line(if smt then [id, id1] else [id], entry)], table[..])
    ensures !entered ==> table[..] == old(table[..])
  {
    ghost var was, line := table[..], Line(if smt then [id, id1] else [id], entry);
    assert id in line.ids && (smt ==> id1 in line.ids) by {
      assert line.ids[0] == id && (smt ==> line.ids[1] == id1);
    }
    if smt {
      if id >= MAX_APIC_IDS || id1 >= MAX_APIC_IDS || table[id] != 0 || table[id1] != 0 {
        return false;
      }
      table[id], table[id1] := entry, entry;
    } else {
      if id >= MAX_APIC_IDS || table[id] != 0 {
        return false;
      }
      table[id] := entry;
    }
    assert forall a :: a in line.ids <==> a == id || (smt && a == id1);
    LineEntered(lines, line, was, table[..]);
    entered := true;
  }

  lemma LineEntered(lines: seq<Line>, line: Line, was: seq<uint8>, table: seq<uint8>)
    requires Lists(lines, was) && |table| == MAX_APIC_IDS && line.entry != 0
    requires forall a :: a in line.ids ==> a < MAX_APIC_IDS && was[a] == 0
    requires forall a :: 0 <= a < MAX_APIC_IDS ==> table[a] == if a in line.ids then line.entry else was[a]
    ensures Lists(lines + [line], table)
  {
    var all := lines + [line];
    forall i | 0 <= i < |all|
      ensures Holds(table, all[i])
    {
      if i < |lines| {
        assert all[i] == lines[i] && Holds(was, lines[i]);
      }
    }
    forall a: nat | a < MAX_APIC_IDS && table[a] != 0
      ensures Taken(all, a)
    {
      TakenGrows(lines, line, a);
    }
  }

  lemma TakenGrows(lines: seq<Line>, line: Line, a: nat)
    ensures Taken(lines + [line], a) <==> Taken(lines, a) || a in line.ids
  {
    var all := lines + [line];
    if Taken(lines, a) {
      var i :| 0 <= i < |lines| && a in lines[i].ids;
      assert a in all[i].ids;
    }
    if a in line.ids {
      assert a in all[|lines|].ids;
    }
  }

  ghost predicate Readable(s: Socket, cores: seq<Core>) {
    forall i :: 0 <= i < |cores| ==> s.Register(cores[i]).Value?
  }

  ghost function LinesOf(p: Package, f: Format, s: Socket, cores: seq<Core>): (lines: seq<Line>)
    requires Readable(s, cores)
    ensures |lines| == |cores|
  {
    seq(|cores|, i requires 0 <= i < |cores| => LineOf(p, f, s, cores[i]))
  }

  /** Core `k` cannot be entered after the ones before it. */
  ghost predicate Conflicts(p: Package, f: Format, s: Socket, cores: seq<Core>, k: nat)
    requires k < |cores| && Readable(s, cores)
  {
    Clashes(LinesOf(p, f, s, cores)[..k], LinesOf(p, f, s, cores)[k])
  }

  /** Every core reports numbers in range, and none of them conflicts. */
  ghost predicate Clean(p: Package, f: Format, s: Socket, cores: seq<Core>) {
    && Readable(s, cores)
    && (forall i :: 0 <= i < |cores| ==> Usable(p, s, cores[i]))
    && (forall k :: 0 <= k < |cores| ==> !Conflicts(p, f, s, cores, k))
  }

  lemma CleanPrefix(p: Package, f: Format, s: Socket, part: seq<Core>, cores: seq<Core>)
    requires part <= cores && Clean(p, f, s, cores)
    ensures Clean(p, f, s, part)
  {
    forall k | 0 <= k < |part|
      ensures Usable(p, s, part[k])
    {
      assert part[k] == cores[k];
    }
    forall k | 0 <= k < |part|
      ensures !Conflicts(p, f, s, part, k)
    {
      assert LinesOf(p, f, s, part)[..k] == LinesOf(p, f, s, cores)[..k];
      assert !Conflicts(p, f, s, cores, k);
    }
  }

  lemma CleanStep(p: Package, f: Format, s: Socket, done: seq<Core>, c: Core)
    requires Clean(p, f, s, done) && Usable(p, s, c)
    ensures var all := done + [c];
            && Readable(s, all) && LinesOf(p, f, s, all) == LinesOf(p, f, s, done) + [LineOf(p, f, s, c)]
            && (Clean(p, f, s, all) <==> !Clashes(LinesOf(p, f, s, done), LineOf(p, f, s, c)))
  {
    var all := done + [c];
    var lines := LinesOf(p, f, s, all);
    assert lines == LinesOf(p, f, s, done) + [LineOf(p, f, s, c)];
    assert lines[..|done|] == LinesOf(p, f, s, done);
    assert Clean(p, f, s, all) ==> !Conflicts(p, f, s, all, |done|);
    if !Clashes(LinesOf(p, f, s, done), LineOf(p, f, s, c)) {
      forall k | 0 <= k < |all|
        ensures Usable(p, s, all[k]) && !Conflicts(p, f, s, all, k)
      {
        if k < |done| {
          assert lines[..k] == LinesOf(p, f, s, done)[..k];
          assert !Conflicts(p, f, s, done, k) && Usable(p, s, done[k]);
        }
      }
    }
  }

  /** The table holds exactly the cores of a list without conflicts. */
  ghost predicate Entered(p: Package, f: Format, s: Socket, cores: seq<Core>, table: seq<uint8>) {
    Clean(p, f, s, cores) && Lists(LinesOf(p, f, s, cores), table)
  }

  datatype Outcome = Done | Conflict | OutOfRange | Unread

  /** Enter one core. */
  method EnterCore(p: Package, f: Format, s: Socket, c: Core, table: array<uint8>, ghost done: seq<Core>,
                   ghost after: seq<Core>)
    returns (outcome: Outcome)
    requires Entered(p, f, s, done, table[..]) && after == done + [c]
    modifies table
    ensures outcome == Done <==> Clean(p, f, s, after)
    ensures outcome == Done ==> Entered(p, f, s, after, table[..])
    ensures outcome == Unread ==> s.Register(c).NoRegister?
    ensures outcome == OutOfRange ==> s.Register(c).Value? && !InRange(p, s.Register(c).value)
    ensures outcome == Conflict ==> Readable(s, after) && Conflicts(p, f, s, after, |done|)
  {
    assert (done + [c])[|done|] == c;
    var read := s.Register(c);
    if read.NoRegister? {
      assert !Readable(s, done + [c]);
      return Unread;
    }
    if !InRange(p, read.value) {
      assert !Clean(p, f, s, done + [c]);
      return OutOfRange;
    }
    CleanStep(p, f, s, done, c);
    assert LinesOf(p, f, s, done + [c])[..|done|] == LinesOf(p, f, s, done);
    var x := read.value;
    var id := LogicalId(p, f, LogicalOf(x, 0));
    var id1 := LogicalId(p, f, LogicalOf(x, 1));
    var entered := EnterLine(p.smt, id, id1, EntryOf(s.PhysicalCcx(c), LogicalOf(x, 0).socket), table,
                             LinesOf(p, f, s, done));
    outcome := if entered then Done else Conflict;
  }

  lemma {:induction false} RowPrefix(s: Socket, ccd: nat, k: nat, n: nat)
    requires k <= n
    ensures s.Row(ccd, k) <= s.Row(ccd, n)
    decreases n - k
  {
    if k < n {
      RowPrefix(s, ccd, k + 1, n);
    }
  }

  lemma {:induction false} RowsPrefix(s: Socket, k: nat, n: nat)
    requires k <= n
    ensures s.Rows(k) <= s.Rows(n)
    decreases n - k
  {
    if k < n {
      RowsPrefix(s, k + 1, n);
    }
  }

  /** The cores that come first in the order in which the table is filled. */
  ghost function Upto(s: Socket, ccd: nat, k: nat): seq<Core> {
    s.Rows(ccd) + s.Row(ccd, k)
  }

  lemma UptoPrefix(s: Socket, ccd: nat, k: nat)
    requires ccd < MAX_CCDS && k <= s.coresPerCcd
    ensures Upto(s, ccd, k) <= s.Rows(MAX_CCDS)
  {
    RowPrefix(s, ccd, k, s.coresPerCcd);
    RowsPrefix(s, ccd + 1, MAX_CCDS);
    assert Upto(s, ccd, k) <= s.Rows(ccd + 1);
  }

  datatype Status = Success | BadPlatform | InvalidParams

  ghost predicate FirstConflict(p: Package, f: Format, s: Socket, cores: seq<Core>, k: nat)
    requires k < |cores|
  {
    Readable(s, cores[..k + 1]) && Conflicts(p, f, s, cores[..k + 1], k)
  }

  /** Why the cores of a socket did not all get into the table. */
  ghost predicate Explains(p: Package, f: Format, s: Socket, cores: seq<Core>, status: Status) {
    match status
    case Success => exists k :: 0 <= k < |cores| && FirstConflict(p, f, s, cores, k)
    case BadPlatform =>
      (exists k :: 0 <= k < |cores| && s.Register(cores[k]).Value? && !InRange(p, s.Register(cores[k]).value))
    case InvalidParams => exists k :: 0 <= k < |cores| && s.Register(cores[k]).NoRegister?
  }

  /** Fill the table with the enabled cores of a socket. A conflict is no error, but it disables ACTIVATE_EX; an error
      leaves it enabled. */
  method CreateTable(p: Package, s: Socket, table: array<uint8>, enabledBefore: bool)
    returns (status: Status, activateEx: bool)
    requires table.Length == MAX_APIC_IDS
    modifies table
    ensures FormatOf(p) == HardwarePlatform ==> status == BadPlatform && activateEx == enabledBefore
                                                && table[..] == old(table[..])
    ensures FormatOf(p).Accepted? ==>
              (status == Success && activateEx <==> Clean(p, FormatOf(p).format, s, s.Rows(MAX_CCDS)))
    ensures FormatOf(p).Accepted? && status != Success ==> activateEx
    ensures FormatOf(p).Accepted? && status == Success && activateEx ==>
              Lists(LinesOf(p, FormatOf(p).format, s, s.Rows(MAX_CCDS)), table[..])
    ensures FormatOf(p).Accepted? && !(status == Success && activateEx) ==>
              Explains(p, FormatOf(p).format, s, s.Rows(MAX_CCDS), status)
  {
    if FormatOf(p) == HardwarePlatform {
      return BadPlatform, enabledBefore;
    }
    var f := FormatOf(p).format;
    ClearTable(table);
    assert Entered(p, f, s, s.Rows(0), table[..]);
    for ccd := 0 to MAX_CCDS
      invariant Entered(p, f, s, s.Rows(ccd), table[..])
    {
      var done: bool;
      done, status := EnterDie(p, f, s, ccd, table);
      if !done {
        return status, status != Success;
      }
    }
    return Success, true;
  }

  method ClearTable(table: array<uint8>)
    requires table.Length == MAX_APIC_IDS
    modifies table
    ensures Lists([], table[..])
  {
    for a := 0 to MAX_APIC_IDS
      invariant forall k :: 0 <= k < a ==> table[k] == 0
    {
      table[a] := 0;
    }
  }

  /** Enter the enabled cores of one die. */
  method EnterDie(p: Package, f: Format, s: Socket, ccd: nat, table: array<uint8>) returns (done: bool, status: Status)
    requires ccd < MAX_CCDS && Entered(p, f, s, s.Rows(ccd), table[..])
    modifies table
    ensures done ==> Entered(p, f, s, s.Rows(ccd + 1), table[..])
    ensures !done ==> Explains(p, f, s, s.Rows(MAX_CCDS), status) && !Clean(p, f, s, s.Rows(MAX_CCDS))
  {
    assert Upto(s, ccd, 0) == s.Rows(ccd);
    for core := 0 to s.coresPerCcd
      invariant Entered(p, f, s, Upto(s, ccd, core), table[..])
    {
      ghost var cores, after := Upto(s, ccd, core), Upto(s, ccd, core + 1);
      OneCore(s, ccd, core);
      if s.enabled(Core(ccd, core)) {
        UptoPrefix(s, ccd, core + 1);
        var outcome := EnterCore(p, f, s, Core(ccd, core), table, cores, after);
        if outcome != Done {
          status := if outcome == Conflict then Success
                    else if outcome == OutOfRange then BadPlatform
                    else InvalidParams;
          Refusal(p, f, s, cores, Core(ccd, core), outcome, s.Rows(MAX_CCDS), status);
          return false, status;
        }
      }
    }
    return true, Success;
  }

  lemma OneCore(s: Socket, ccd: nat, core: nat)
    ensures s.enabled(Core(ccd, core)) ==> Upto(s, ccd, core + 1) == Upto(s, ccd, core) + [Core(ccd, core)]
    ensures !s.enabled(Core(ccd, core)) ==> Upto(s, ccd, core + 1) == Upto(s, ccd, core)
  {
  }

  lemma Refusal(p: Package, f: Format, s: Socket, done: seq<Core>, c: Core, outcome: Outcome, cores: seq<Core>,
                status: Status)
    requires done + [c] <= cores && !Clean(p, f, s, done + [c])
    requires outcome == Unread ==> s.Register(c).NoRegister? && status == InvalidParams
    requires outcome == OutOfRange ==> s.Register(c).Value? && !InRange(p, s.Register(c).value) && status == BadPlatform
    requires outcome == Conflict ==> status == Success
    requires outcome == Conflict ==> Readable(s, done + [c]) && Conflicts(p, f, s, done + [c], |done|)
    requires outcome != Done
    ensures Explains(p, f, s, cores, status) && !Clean(p, f, s, cores)
  {
    var k := |done|;
    assert cores[k] == (done + [c])[k] == c;
    assert cores[..k + 1] == done + [c];
    assert outcome == Conflict ==> FirstConflict(p, f, s, cores, k);
    if Clean(p, f, s, cores) {
      CleanPrefix(p, f, s, done + [c], cores);
    }
  }

  /** The numbers of a core are in range, and its complex is one that the package declares. */
  ghost predicate Declared(p: Package, s: Socket, c: Core)
    requires s.Register(c).Value?
  {
    Usable(p, s, c) && LogicalOf(s.Register(c).value, 0).ccx <= p.MaxCcx()
  }

  ghost predicate AllDeclared(p: Package, s: Socket, cores: seq<Core>)
    requires Readable(s, cores)
  {
    forall i :: 0 <= i < |cores| ==> Declared(p, s, cores[i])
  }

  /** Two cores report the same logical numbers. */
  ghost predicate Same(s: Socket, c: Core, d: Core)
    requires s.Register(c).Value? && s.Register(d).Value?
  {
    LogicalOf(s.Register(c).value, 0) == LogicalOf(s.Register(d).value, 0)
  }

  ghost predicate Small(line: Line) {
    forall a :: a in line.ids ==> a < MAX_APIC_IDS
  }

  ghost predicate Share(l: Line, m: Line) {
    exists a :: a in l.ids && a in m.ids
  }

  lemma ShareIsSame(p: Package, f: Format, s: Socket, c: Core, d: Core)
    requires FormatOf(p) == Accepted(f) && s.Register(c).Value? && s.Register(d).Value?
    requires Declared(p, s, c) && Declared(p, s, d)
    ensures Share(LineOf(p, f, s, c), LineOf(p, f, s, d)) <==> Same(s, c, d)
  {
    var x, y := s.Register(c).value, s.Register(d).value;
    var l, m := LineOf(p, f, s, c), LineOf(p, f, s, d);
    if a :| a in l.ids && a in m.ids {
      var t := if a == LogicalId(p, f, LogicalOf(x, 0)) then 0 else 1;
      var u := if a == LogicalId(p, f, LogicalOf(y, 0)) then 0 else 1;
      IdsDiffer(p, f, LogicalOf(x, t), LogicalOf(y, u));
    }
    if Same(s, c, d) {
      assert l.ids[0] in m.ids by {
        assert m.ids[0] == l.ids[0];
      }
    }
  }

  /** In lines: a conflict is an ID that is too large, or one shared with an earlier line. */
  lemma ClashIsShare(lines: seq<Line>, k: nat)
    requires k < |lines|
    ensures Clashes(lines[..k], lines[k]) <==> !Small(lines[k]) || exists i :: 0 <= i < k && Share(lines[i], lines[k])
  {
    if Clashes(lines[..k], lines[k]) && Small(lines[k]) {
      var a :| a in lines[k].ids && Taken(lines[..k], a);
      var i :| 0 <= i < k && a in lines[..k][i].ids;
      assert Share(lines[i], lines[k]);
    }
    if i :| 0 <= i < k && Share(lines[i], lines[k]) {
      var a :| a in lines[i].ids && a in lines[k].ids;
      assert a in lines[..k][i].ids;
    }
  }

  /**
   * When every core reports numbers that the package declares, the table conflicts only over IDs of 512 and more or
   * over two cores that report the same logical numbers.
   */
  lemma CleanIsDistinct(p: Package, f: Format, s: Socket, cores: seq<Core>)
    requires FormatOf(p) == Accepted(f) && Readable(s, cores) && AllDeclared(p, s, cores)
    ensures Clean(p, f, s, cores) <==>
            (forall i :: 0 <= i < |cores| ==> Small(LineOf(p, f, s, cores[i])))
            && (forall i, j :: 0 <= i < j < |cores| ==> !Same(s, cores[i], cores[j]))
  {
    var lines := LinesOf(p, f, s, cores);
    assert forall i :: 0 <= i < |cores| ==> lines[i] == LineOf(p, f, s, cores[i]);
    forall k | 0 <= k < |cores|
      ensures Conflicts(p, f, s, cores, k) <==> !Small(lines[k]) || exists i :: 0 <= i < k && Share(lines[i], lines[k])
    {
      ClashIsShare(lines, k);
    }
    forall i, j | 0 <= i < j < |cores|
      ensures Share(lines[i], lines[j]) <==> Same(s, cores[i], cores[j])
    {
      assert Declared(p, s, cores[i]) && Declared(p, s, cores[j]);
      ShareIsSame(p, f, s, cores[i], cores[j]);
    }
    assert forall i :: 0 <= i < |cores| && Declared(p, s, cores[i]) ==> Usable(p, s, cores[i]);
  }

  const LIST_MAX: nat := 1024

  datatype MaskStatus = Mask(mask: uint32) | BadList | BadConfig

  /** The entries of the table name complexes 0 to 31. */
  ghost predicate Entries(table: seq<uint8>) {
    && |table| == MAX_APIC_IDS
    && forall a :: 0 <= a < MAX_APIC_IDS && table[a] >= ENTRY_VALID ==> table[a] < ENTRY_VALID + 32
  }

  ghost predicate AllListed(ids: seq<uint32>, table: seq<uint8>)
    requires |table| == MAX_APIC_IDS
  {
    forall i :: 0 <= i < |ids| ==> ids[i] < MAX_APIC_IDS && table[ids[i]] >= ENTRY_VALID
  }

  ghost predicate Listed(ids: seq<uint32>, n: nat, table: seq<uint8>, k: nat)
    requires |table| == MAX_APIC_IDS && n <= |ids|
  {
    exists i :: 0 <= i < n && ids[i] < MAX_APIC_IDS && table[ids[i]] == ENTRY_VALID + k
  }

  /** The set of complexes that a list of APIC IDs belongs to, as a bit mask. */
  method CcxBitmask(ids: seq<uint32>, table: seq<uint8>) returns (r: MaskStatus)
    requires Entries(table)
    ensures r.Mask? <==> |ids| <= 1024 && AllListed(ids, table)
    ensures r.Mask? ==> forall k :: 0 <= k < 32 ==> (Bit(r.mask, k) <==> Listed(ids, |ids|, table, k))
    ensures r == BadConfig ==> exists i :: 0 <= i < |ids| && ids[i] < MAX_APIC_IDS && table[ids[i]] < ENTRY_VALID
    ensures r == BadList ==> |ids| > 1024 || exists i :: 0 <= i < |ids| && ids[i] >= MAX_APIC_IDS
  {
    if |ids| > LIST_MAX {
      return BadList;
    }
    var mask: uint32 := 0;
    forall k | 0 <= k < 32
      ensures !Bit(0, k)
    {
      ZeroBit(k);
    }
    for i := 0 to |ids|
      invariant forall j :: 0 <= j < i ==> ids[j] < MAX_APIC_IDS && table[ids[j]] >= ENTRY_VALID
      invariant forall k :: 0 <= k < 32 ==> (Bit(mask, k) <==> Listed(ids, i, table, k))
    {
      if ids[i] >= MAX_APIC_IDS {
        return BadList;
      }
      var entry := table[ids[i]];
      if entry < ENTRY_VALID {
        return BadConfig;
      }
      var was, ccx := mask, entry - ENTRY_VALID;
      mask := WithBit(mask, ccx);
      forall k | 0 <= k < 32
        ensures Bit(mask, k) <==> Listed(ids, i + 1, table, k)
      {
        OrBit(was, Pow2(ccx), k);
        PowerBit(ccx, k);
        assert Listed(ids, i + 1, table, k) <==> Listed(ids, i, table, k) || k == ccx;
      }
    }
    r := Mask(mask);
  }

  function WithBit(mask: uint32, k: nat): uint32
    requires k < 32
  {
    Pow2Mono(k + 1, 32);
    Pow2Word();
    OrBound(mask, Pow2(k), 32);
    BitOr(mask, Pow2(k))
  }
}
