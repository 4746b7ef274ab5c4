/** The pure part of the dynamic strings: header types and the growth policy. */
module SdsHeader {
  const SDS_TYPE_5 := 0
  const SDS_TYPE_8 := 1
  const SDS_TYPE_16 := 2
  const SDS_TYPE_32 := 3
  const SDS_TYPE_64 := 4

  const SDS_MAX_PREALLOC := 1024 * 1024

  /** size_t values are below this bound. */
  const SIZE_LIMIT := 0x1_0000_0000_0000_0000

  /** The five header types, as the low three bits of the flags byte. */
  type SdsType = t: int | 0 <= t <= 4

  /** The packed size of a header. */
  function HdrSize(t: SdsType): nat {
    match t
    case 0 => 1
    case 1 => 3
    case 2 => 5
    case 3 => 9
    case 4 => 17
  }

  /** The values a length field of this type holds are below this bound. */
  function FieldLimit(t: SdsType): nat {
    match t
    case 0 => 0x20
    case 1 => 0x100
    case 2 => 0x1_0000
    case 3 => 0x1_0000_0000
    case 4 => SIZE_LIMIT
  }

  /** Beyond type 5 a header is two fields of the same width, 1 to 8 bytes, and the flags byte;
      in type 5 the flags byte has five bits for the length. */
  lemma HeaderLayout(t: SdsType)
    ensures t == SDS_TYPE_5 ==> HdrSize(t) == 1 && FieldLimit(t) == Power2(5)
    ensures t != SDS_TYPE_5 ==>
      HdrSize(t) == 1 + 2 * Power2(t - 1) && FieldLimit(t) == Power2(8 * Power2(t - 1))
  {
    WidthsInPowers();
  }

  lemma WidthsInPowers()
    ensures Power2(0) == 1 && Power2(1) == 2 && Power2(2) == 4 && Power2(3) == 8 && Power2(5) == 32
    ensures Power2(8) == 0x100 && Power2(16) == 0x1_0000
    ensures Power2(32) == 0x1_0000_0000 && Power2(64) == 0x1_0000_0000_0000_0000
  {
    assert Power2(8) == 8 * Power2(5);
    assert Power2(12) == 16 * Power2(8);
    assert Power2(16) == 16 * Power2(12);
    assert Power2(20) == 16 * Power2(16);
    assert Power2(24) == 16 * Power2(20);
    assert Power2(28) == 16 * Power2(24);
    assert Power2(32) == 16 * Power2(28);
    HighPowers();
  }

  lemma HighPowers()
    ensures Power2(64) == 0x1_0000_0000 * Power2(32)
  {
    assert Power2(36) == 16 * Power2(32);
    assert Power2(40) == 16 * Power2(36);
    assert Power2(44) == 16 * Power2(40);
    assert Power2(48) == 16 * Power2(44);
    assert Power2(52) == 16 * Power2(48);
    assert Power2(56) == 16 * Power2(52);
    assert Power2(60) == 16 * Power2(56);
    assert Power2(64) == 16 * Power2(60);
  }

  function Power2(k: nat): nat {
    if k == 0 then 1 else 2 * Power2(k - 1)
  }

  /** What a field for values below limit keeps of a value: its low bits. */
  function Low(n: nat, limit: nat): (r: nat)
    requires limit > 0
    ensures r < limit && (n < limit ==> r == n)
  {
    n % limit
  }

  /** What a length field of this type keeps of a value. */
  function Truncated(t: SdsType, n: nat): (r: nat)
    ensures r < FieldLimit(t) && (n < FieldLimit(t) ==> r == n)
  {
    match t
    case 0 => Low(n, 0x20)
    case 1 => Low(n, 0x100)
    case 2 => Low(n, 0x1_0000)
    case 3 => Low(n, 0x1_0000_0000)
    case 4 => Low(n, SIZE_LIMIT)
  }

  function ReqType(size: nat): SdsType {
    if size < 0x20 then SDS_TYPE_5
    else if size < 0x100 then SDS_TYPE_8
    else if size < 0x1_0000 then SDS_TYPE_16
    else if size < 0x1_0000_0000 then SDS_TYPE_32
    else SDS_TYPE_64
  }

  /** ReqType picks the smallest header whose length field can hold the size. */
  lemma ReqTypeIsLeast(size: nat, t: SdsType)
    requires size < SIZE_LIMIT
    ensures size < FieldLimit(t) <==> ReqType(size) <= t
  {
  }

  /** The header an appended-to string gets: never type 5, which cannot record free space. */
  function GrowType(size: nat): SdsType {
    if ReqType(size) == SDS_TYPE_5 then SDS_TYPE_8 else ReqType(size)
  }

  /** It is the smallest of the others that can hold the size. */
  lemma GrowTypeIsLeast(size: nat, t: SdsType)
    requires size < SIZE_LIMIT
    ensures 1 <= GrowType(size)
    ensures t >= 1 ==> (size < FieldLimit(t) <==> GrowType(size) <= t)
  {
  }

  /** What is lost of a value that is too large for its field is a multiple of the limit. */
  lemma TruncatedDropsMultiples(t: SdsType, n: nat, q: nat)
    requires n < FieldLimit(t)
    ensures Truncated(t, n + q * FieldLimit(t)) == n
  {
    RemainderIsUnique(n + q * FieldLimit(t), FieldLimit(t), q, n);
  }

  /** The capacity asked for when a string must hold total bytes. */
  function Preallocated(total: nat): nat {
    if total < SDS_MAX_PREALLOC then 2 * total else total + SDS_MAX_PREALLOC
  }

  /** The allocation size for a string that must hold total bytes does not overflow. */
  predicate Fits(total: nat) {
    HdrSize(GrowType(Preallocated(total))) + Preallocated(total) + 1 < SIZE_LIMIT
  }

  /** The header sdsnewlen gives a string: the least one, but never type 5 for an empty one. */
  function NewType(initlen: nat): SdsType {
    if initlen == 0 then SDS_TYPE_8 else ReqType(initlen)
  }

  /** That is the smallest header whose length field holds the length, and type 8 for none. */
  lemma NewTypeIsLeast(initlen: nat, t: SdsType)
    requires initlen < SIZE_LIMIT
    ensures initlen > 0 ==> (initlen < FieldLimit(t) <==> NewType(initlen) <= t)
    ensures NewType(0) == 1
  {
  }

  /** The allocation size of sdsnewlen does not overflow. */
  predicate NewFits(initlen: nat) {
    HdrSize(NewType(initlen)) + initlen + 1 < SIZE_LIMIT
  }

  lemma FitsDownward(total: nat, smaller: nat)
    requires Fits(total) && smaller <= total
    ensures Fits(smaller)
  {
  }

  // ---------- the overflow check of sdsMakeRoomFor ----------

  /** The length sdsMakeRoomFor takes the string to have with addlen more bytes, and the
      capacity it asks for, both in size_t arithmetic. */
  function WrappedLength(len: nat, addlen: nat): nat {
    Low(len + addlen, SIZE_LIMIT)
  }

  function WrappedCapacity(len: nat, addlen: nat): nat {
    Low(Preallocated(WrappedLength(len, addlen)), SIZE_LIMIT)
  }

  /** The assertion against overflow. */
  predicate RoomAsserted(len: nat, addlen: nat) {
    var capacity := WrappedCapacity(len, addlen);
    Low(HdrSize(GrowType(capacity)) + capacity + 1, SIZE_LIMIT) > WrappedLength(len, addlen)
  }

  lemma LowAbove(n: nat, limit: nat)
    requires limit <= n < 2 * limit
    ensures Low(n, limit) == n - limit
  {
    RemainderIsUnique(n, limit, 1, n - limit);
  }

  /** Without a wrap of the sum, the assertion holds exactly if nothing else wraps. */
  lemma AssertedIffFits(len: nat, addlen: nat)
    requires len + addlen < SIZE_LIMIT
    ensures RoomAsserted(len, addlen) <==> Fits(len + addlen)
  {
    var wide := Preallocated(len + addlen);
    if wide >= SIZE_LIMIT {
      LowAbove(wide, SIZE_LIMIT);
    }
    var capacity := WrappedCapacity(len, addlen);
    if HdrSize(GrowType(capacity)) + capacity + 1 >= SIZE_LIMIT {
      LowAbove(HdrSize(GrowType(capacity)) + capacity + 1, SIZE_LIMIT);
    }
  }

  /** What the assertion is worth: a request it accepts is free of overflow exactly if the sum
      of the two lengths is, and exactly then the new capacity has room for it. */
  lemma AssertedIsSafeIff(len: nat, addlen: nat)
    requires len < SIZE_LIMIT && addlen < SIZE_LIMIT && RoomAsserted(len, addlen)
    ensures Fits(len + addlen) <==> len + addlen < SIZE_LIMIT
    ensures WrappedCapacity(len, addlen) - len >= addlen <==> len + addlen < SIZE_LIMIT
  {
    if len + addlen < SIZE_LIMIT {
      AssertedIffFits(len, addlen);
    }
  }

  /** Requests that the assertion accepts although the sum wraps: one gets no room, one gets a
      block that is too small for the contents. */
  lemma AssertionMissesWrap()
    ensures RoomAsserted(10, SIZE_LIMIT - 5) && WrappedCapacity(10, SIZE_LIMIT - 5) == 10
    ensures RoomAsserted(100, SIZE_LIMIT - 99) && WrappedCapacity(100, SIZE_LIMIT - 99) == 2
  {
    LowAbove(SIZE_LIMIT + 5, SIZE_LIMIT);
    LowAbove(SIZE_LIMIT + 1, SIZE_LIMIT);
  }

  // ---------- growth over a run of appends ----------

  /** What one sdscatlen sees and leaves: length, capacity, and how many content bytes have
      been copied to new blocks so far. */
  datatype Growth = Growth(len: nat, alloc: nat, moved: nat)

  function RoomFor(g: Growth, n: nat): Growth {
    if g.alloc - g.len >= n then g
    else Growth(g.len, Preallocated(g.len + n), g.moved + g.len)
  }

  function Appended(g: Growth, n: nat): Growth {
    var room := RoomFor(g, n);
    room.(len := g.len + n)
  }

  /** A run of appends of the given sizes to the empty string. */
  function AppendAll(ns: seq<nat>): Growth {
    if ns == [] then Growth(0, 0, 0)
    else Appended(AppendAll(ns[..|ns| - 1]), ns[|ns| - 1])
  }

  function Total(ns: seq<nat>): nat {
    if ns == [] then 0 else Total(ns[..|ns| - 1]) + ns[|ns| - 1]
  }

  lemma {:induction false} AppendAllLen(ns: seq<nat>)
    ensures AppendAll(ns).len == Total(ns)
  {
    if ns != [] {
      AppendAllLen(ns[..|ns| - 1]);
    }
  }

  /** The largest length whose preallocation can be full when a reallocation brings the
      length to n. */
  function Before(n: nat): (p: nat)
    requires n > 0
    ensures p < n
  {
    if n <= 2 * SDS_MAX_PREALLOC then (n - 1) / 2 else n - 1 - SDS_MAX_PREALLOC
  }

  lemma BeforeIsLargest(n: nat, p: nat)
    requires n > 0
    ensures Preallocated(p) < n <==> p <= Before(n)
  {
  }

  /** The most content bytes that a run of appends can have copied when a reallocation
      brings the length to n: each block is filled up before the next one is needed. */
  function Worst(n: nat): nat {
    if n == 0 then 0 else Worst(Before(n)) + Preallocated(Before(n))
  }

  lemma {:induction false} WorstGrows(m: nat, n: nat)
    requires m <= n
    ensures Worst(m) <= Worst(n)
    decreases n
  {
    if 0 < m < n {
      BeforeIsLargest(m, Before(m));
      BeforeIsLargest(n, Before(m));
      WorstGrows(Before(m), Before(n));
    }
  }

  /** The copying done so far is bounded by the length at which the run last reallocated. */
  ghost predicate Accounted(g: Growth, last: nat) {
    last <= g.len <= g.alloc == Preallocated(last) && g.moved <= Worst(last)
  }

  lemma AppendAccounts(g: Growth, n: nat, last: nat) returns (last': nat)
    requires Accounted(g, last)
    ensures Accounted(Appended(g, n), last')
  {
    last' := last;
    if g.alloc - g.len < n {
      last' := g.len + n;
      BeforeIsLargest(last', last);
      WorstGrows(last, Before(last'));
    }
  }

  lemma {:induction false} RunAccounts(ns: seq<nat>) returns (last: nat)
    ensures Accounted(AppendAll(ns), last)
  {
    last := 0;
    if ns != [] {
      var before := RunAccounts(ns[..|ns| - 1]);
      last := AppendAccounts(AppendAll(ns[..|ns| - 1]), ns[|ns| - 1], before);
    }
  }

  /** Run that copies as much as possible on the way to length n. */
  function WorstRun(n: nat): seq<nat> {
    if n == 0 then []
    else WorstRun(Before(n)) + [Preallocated(Before(n)) - Before(n), n - Preallocated(Before(n))]
  }

  lemma {:induction false} WorstRunIsWorst(n: nat)
    ensures AppendAll(WorstRun(n)) == Growth(n, Preallocated(n), Worst(n))
  {
    if n > 0 {
      var p := Before(n);
      var ns := WorstRun(n);
      WorstRunIsWorst(p);
      assert ns[..|ns| - 1][..|ns| - 2] == WorstRun(p);
      assert Appended(AppendAll(WorstRun(p)), Preallocated(p) - p) == Growth(Preallocated(p), Preallocated(p), Worst(p));
      assert ns[|ns| - 1] == n - Preallocated(p) && ns[..|ns| - 1][|ns| - 2] == Preallocated(p) - p;
    }
  }

  /** The exact cost of appending pieces of total length n to an empty string: no run copies
      more than Worst(n) content bytes, and one does copy that many. */
  lemma WorstIsExact(n: nat)
    ensures forall ns :: Total(ns) == n ==> AppendAll(ns).moved <= Worst(n)
    ensures Total(WorstRun(n)) == n && AppendAll(WorstRun(n)).moved == Worst(n)
  {
    forall ns | Total(ns) == n
      ensures AppendAll(ns).moved <= Worst(n)
    {
      AppendAllLen(ns);
      var last := RunAccounts(ns);
      WorstGrows(last, n);
    }
    WorstRunIsWorst(n);
    AppendAllLen(WorstRun(n));
  }

  // ---------- how much that is ----------

  lemma {:induction false} WorstOfSmall(n: nat)
    requires n <= 2 * SDS_MAX_PREALLOC
    ensures Worst(n) <= 2 * n
  {
    if n > 0 {
      WorstOfSmall(Before(n));
    }
  }

  lemma SquareAfter(p: nat, n: nat, w: nat)
    requires n == p + SDS_MAX_PREALLOC + 1 && Quadratic(p, w)
    ensures Quadratic(n, w + n - 1)
  {
    var d := SDS_MAX_PREALLOC + 1;
    assert n * n == p * p + 2 * d * p + d * d;
  }

  predicate Quadratic(n: nat, cost: nat) {
    2 * SDS_MAX_PREALLOC * cost <= 4 * SDS_MAX_PREALLOC * n + n * n
  }

  lemma SmallIsQuadratic(n: nat, cost: nat)
    requires cost <= 2 * n
    ensures Quadratic(n, cost)
  {
  }

  lemma {:induction false} WorstIsQuadratic(n: nat)
    ensures Quadratic(n, Worst(n))
  {
    if n <= 2 * SDS_MAX_PREALLOC {
      WorstOfSmall(n);
      SmallIsQuadratic(n, Worst(n));
    } else {
      var p := n - 1 - SDS_MAX_PREALLOC;
      WorstIsQuadratic(p);
      QuadraticStep(n, p);
    }
  }

  lemma QuadraticStep(n: nat, p: nat)
    requires n > 2 * SDS_MAX_PREALLOC && n == p + SDS_MAX_PREALLOC + 1 && Quadratic(p, Worst(p))
    ensures Quadratic(n, Worst(n))
  {
    WorstStep(n, p);
    SquareAfter(p, n, Worst(p));
  }

  lemma WorstStep(n: nat, p: nat)
    requires n > 2 * SDS_MAX_PREALLOC && n == p + SDS_MAX_PREALLOC + 1
    ensures Worst(n) == Worst(p) + n - 1
  {
    assert Before(n) == p && Preallocated(p) == n - 1;
  }

  lemma Scale(c: nat, a: nat, b: nat)
    requires a <= b
    ensures c * a <= c * b
  {
  }

  lemma LowerStep(p: nat, n: nat, w: nat)
    requires n == p + SDS_MAX_PREALLOC + 1 && LowerQuadratic(p, w)
    ensures LowerQuadratic(n, w + n - 1)
  {
    var d := SDS_MAX_PREALLOC + 1;
    assert n * n == p * p + 2 * d * p + d * d;
    assert 2 * d * (w + n - 1) == 2 * d * w + 2 * d * (n - 1);
  }

  predicate LowerQuadratic(n: nat, cost: nat) {
    n * n <= 2 * (SDS_MAX_PREALLOC + 1) * cost + 4 * SDS_MAX_PREALLOC * SDS_MAX_PREALLOC
  }

  lemma SmallSquare(n: nat, cost: nat)
    requires n <= 2 * SDS_MAX_PREALLOC
    ensures LowerQuadratic(n, cost)
  {
    Scale(n, n, 2 * SDS_MAX_PREALLOC);
    Scale(2 * SDS_MAX_PREALLOC, n, 2 * SDS_MAX_PREALLOC);
    Scale(2 * (SDS_MAX_PREALLOC + 1), 0, cost);
  }

  lemma LowerQuadraticStep(n: nat, p: nat)
    requires n > 2 * SDS_MAX_PREALLOC && n == p + SDS_MAX_PREALLOC + 1 && LowerQuadratic(p, Worst(p))
    ensures LowerQuadratic(n, Worst(n))
  {
    WorstStep(n, p);
    LowerStep(p, n, Worst(p));
  }

  lemma {:induction false} WorstIsAtLeastQuadratic(n: nat)
    ensures LowerQuadratic(n, Worst(n))
  {
    if n <= 2 * SDS_MAX_PREALLOC {
      SmallSquare(n, Worst(n));
    } else {
      var p := n - 1 - SDS_MAX_PREALLOC;
      WorstIsAtLeastQuadratic(p);
      LowerQuadraticStep(n, p);
    }
  }

  /** The quadratic term is really there: for every total some run of appends copies about
      n * n / (2 * SDS_MAX_PREALLOC) bytes. */
  lemma SomeRunIsQuadratic(n: nat) returns (ns: seq<nat>)
    ensures Total(ns) == n
    ensures n * n <= 2 * (SDS_MAX_PREALLOC + 1) * AppendAll(ns).moved + 4 * SDS_MAX_PREALLOC * SDS_MAX_PREALLOC
  {
    ns := WorstRun(n);
    WorstIsExact(n);
    WorstIsAtLeastQuadratic(n);
  }

  /** Amortised cost: appending pieces of total length L to an empty string copies at most
      2 L content bytes up to a total of twice SDS_MAX_PREALLOC, and at most
      2 L + L * L / (2 * SDS_MAX_PREALLOC) in every case. The capacity is never more than
      twice the length, or the length plus SDS_MAX_PREALLOC. */
  lemma AppendsAreAmortised(ns: seq<nat>)
    ensures var g := AppendAll(ns); var L := Total(ns);
      && g.len == L
      && L <= g.alloc <= Preallocated(L)
      && 2 * SDS_MAX_PREALLOC * g.moved <= 4 * SDS_MAX_PREALLOC * L + L * L
      && (L <= 2 * SDS_MAX_PREALLOC ==> g.moved <= 2 * L)
  {
    AppendAllLen(ns);
    var last := RunAccounts(ns);
    WorstGrows(last, Total(ns));
    WorstIsQuadratic(Total(ns));
    Scale(2 * SDS_MAX_PREALLOC, AppendAll(ns).moved, Worst(Total(ns)));
    if Total(ns) <= 2 * SDS_MAX_PREALLOC {
      WorstOfSmall(Total(ns));
    }
  }

  /** The ones in the binary form of a number. */
  function Ones(x: nat): nat {
    if x == 0 then 0 else x % 2 + Ones(x / 2)
  }

  lemma Halved(x: nat) returns (half: nat, bit: nat)
    ensures x == 2 * half + bit && bit < 2
  {
    half, bit := x / 2, x % 2;
  }

  lemma BitOfOnes(half: nat, bit: nat)
    requires bit < 2
    ensures Ones(2 * half + bit) == Ones(half) + bit
  {
    assert (2 * half + bit) / 2 == half && (2 * half + bit) % 2 == bit;
  }

  lemma DoublingStep(q: nat, bit: nat)
    requires q < SDS_MAX_PREALLOC && bit < 2
    ensures Worst(2 * q + 1 + bit) == Worst(q) + 2 * q
  {
    assert (2 * q + bit) / 2 == q;
  }

  /** The cost falls short of twice the length by the digits of the length when it is written
      with the digits 1 and 2: k digits, where the ones of x say which of them are 2. */
  ghost predicate Digits(n: nat, k: nat, x: nat) {
    Worst(n) + 2 * k + 2 * Ones(x) == 2 * n
  }

  lemma DigitsStep(n: nat, k: nat, x: nat, q: nat, half: nat, bit: nat)
    requires n == 2 * q + 1 + bit && x == 2 * half + bit && bit < 2
    requires q < SDS_MAX_PREALLOC && Digits(q, k, half)
    ensures Digits(n, k + 1, x)
  {
    BitOfOnes(half, bit);
    DoublingStep(q, bit);
  }

  /** So it is in the doubling phase. */
  lemma {:induction false} WorstOfDoubling(n: nat, k: nat, x: nat)
    requires n == Power2(k) - 1 + x && x < Power2(k) <= SDS_MAX_PREALLOC
    ensures Digits(n, k, x)
  {
    if k > 0 {
      var half, bit := Halved(x);
      var q := Power2(k - 1) - 1 + half;
      WorstOfDoubling(q, k - 1, half);
      DigitsStep(n, k - 1, x, q, half, bit);
    }
  }

  lemma {:induction false} OnesAtMost(k: nat, x: nat)
    requires x < Power2(k)
    ensures Ones(x) <= k
  {
    if k > 0 {
      OnesAtMost(k - 1, x / 2);
    }
  }

  lemma SmallOnes()
    ensures Ones(44) == 3 && Ones(45) == 4 && Ones(46) == 4 && Ones(47) == 5
    ensures Ones(48) == 2 && Ones(49) == 3 && Ones(50) == 3 && Ones(51) == 4
    ensures Ones(52) == 3 && Ones(53) == 4 && Ones(54) == 4 && Ones(55) == 5
  {
    assert Ones(11) == 3 && Ones(12) == 2 && Ones(13) == 3;
    assert Ones(22) == 3 && Ones(23) == 4 && Ones(24) == 2 && Ones(25) == 3 && Ones(26) == 3 && Ones(27) == 4;
  }

  lemma {:induction false} FewOnes(x: nat)
    requires x >= 52
    ensures 2 * Ones(x) < x - 43
  {
    if x >= 104 {
      FewOnes(x / 2);
    } else if x >= 64 {
      assert Power2(7) == 128;
      OnesAtMost(7, x);
    } else if x >= 56 {
      assert Power2(6) == 64;
      OnesAtMost(6, x);
    } else {
      SmallOnes();
    }
  }

  /** The totals up to which no run of appends copies more than twice its length, and the two
      stragglers behind. */
  predicate CopiesTwiceAtMost(n: nat) {
    n < 2 * SDS_MAX_PREALLOC + 48 || n == 2 * SDS_MAX_PREALLOC + 49 || n == 2 * SDS_MAX_PREALLOC + 51
  }

  lemma OnesAtTheEdge(x: nat)
    ensures 2 * Ones(x) >= x - 43 <==> x < 48 || x == 49 || x == 51
  {
    if x >= 52 {
      FewOnes(x);
    } else {
      SmallOnes();
    }
  }

  lemma {:induction false} WorstAboveTwice(n: nat)
    ensures Worst(n) <= 2 * n <==> CopiesTwiceAtMost(n)
  {
    var m := SDS_MAX_PREALLOC;
    PreallocIsPower();
    if n <= 2 * m {
      WorstOfSmall(n);
    } else if n < 3 * m {
      WorstOfDoubling(n - 1 - m, 20, n - 2 * m);
      OnesAtTheEdge(n - 2 * m);
    } else {
      var p := Before(n);
      if CopiesTwiceAtMost(p) {
        OnesAtMost(20, m - 1);
        WorstOfDoubling(2 * m - 2, 20, m - 1);
        WorstGrows(2 * m - 2, p);
      } else {
        WorstAboveTwice(p);
      }
    }
  }

  lemma PreallocIsPower()
    ensures Power2(20) == SDS_MAX_PREALLOC
  {
    assert Power2(10) == 1024;
    assert Power2(15) == 32 * Power2(10);
    assert Power2(20) == 32 * Power2(15);
  }

  /** Exactly for these totals does every run of appends copy at most twice the length. */
  lemma TwiceTheLengthIff(n: nat)
    ensures (forall ns :: Total(ns) == n ==> AppendAll(ns).moved <= 2 * n) <==> CopiesTwiceAtMost(n)
  {
    WorstIsExact(n);
    WorstAboveTwice(n);
  }

  // ---------- sdsIncrLen ----------

  /** The assertion sdsIncrLen makes, with the casts to unsigned int of its source. */
  predicate IncrAccepted(t: SdsType, len: nat, alloc: nat, incr: int) {
    if t == SDS_TYPE_5 then
      (incr > 0 && len + incr < 32) || (incr < 0 && len >= (-incr) % 0x1_0000_0000)
    else if t == SDS_TYPE_64 then
      (incr >= 0 && alloc - len >= incr) || (incr < 0 && len >= -incr)
    else if t == SDS_TYPE_32 then
      (incr >= 0 && alloc - len >= incr % 0x1_0000_0000) || (incr < 0 && len >= (-incr) % 0x1_0000_0000)
    else
      (incr >= 0 && alloc - len >= incr) || (incr < 0 && len >= (-incr) % 0x1_0000_0000)
  }

  /** The index at which sdsIncrLen writes the new terminator. */
  function IncrResult(t: SdsType, len: nat, incr: int): nat {
    if t == SDS_TYPE_5 then (len + incr) % SIZE_LIMIT else (len + incr) % FieldLimit(t)
  }

  lemma ModExact(x: int, m: nat)
    requires m > 0
    ensures x % m == x <==> 0 <= x < m
  {
  }

  /** Which increments below 2 to the 32 the assertion accepts: in types 8 to 64 those that
      keep the length between 0 and the capacity, in type 5 those other than 0 that keep it
      in five bits. */
  lemma IncrAcceptedIff(t: SdsType, len: nat, alloc: nat, incr: int)
    requires len <= alloc < FieldLimit(t) && -0x1_0000_0000 < incr < 0x1_0000_0000
    ensures t != 0 ==> (IncrAccepted(t, len, alloc, incr) <==> 0 <= len + incr <= alloc)
    ensures t == 0 ==> (IncrAccepted(t, len, alloc, incr) <==> incr != 0 && 0 <= len + incr < 32)
  {
    ModExact(incr, 0x1_0000_0000);
    ModExact(-incr, 0x1_0000_0000);
  }

  /** Which decrements of 2 to the 32 or more it accepts: type 64 none that is too large, and
      the others those whose low 32 bits are not too large. */
  lemma IncrWideDecrementIff(t: SdsType, len: nat, alloc: nat, low: nat, q: nat)
    requires len <= alloc < FieldLimit(t) && low < 0x1_0000_0000 && q > 0
    ensures IncrAccepted(t, len, alloc, -(low + 0x1_0000_0000 * q)) <==>
      if t == 4 then low + 0x1_0000_0000 * q <= len else low <= len
  {
    RemainderIsUnique(low + 0x1_0000_0000 * q, 0x1_0000_0000, q, low);
  }

  /** An accepted increment is applied exactly if and only if it survives the casts; a
      type-64 header needs no cast. */
  lemma IncrExactIffNarrow(t: SdsType, len: nat, alloc: nat, incr: int)
    requires len <= alloc < FieldLimit(t) && IncrAccepted(t, len, alloc, incr)
    requires -0x8000_0000_0000_0000 <= incr < 0x8000_0000_0000_0000
    ensures IncrResult(t, len, incr) == len + incr
      <==> t == SDS_TYPE_64 || -0x1_0000_0000 < incr < 0x1_0000_0000
  {
    ModExact(len + incr, if t == SDS_TYPE_5 then SIZE_LIMIT else FieldLimit(t));
    ModExact(incr, 0x1_0000_0000);
    ModExact(-incr, 0x1_0000_0000);
    if t == SDS_TYPE_64 || -0x1_0000_0000 < incr < 0x1_0000_0000 {
      assert 0 <= len + incr < FieldLimit(t);
    } else {
      assert len + incr < 0 || len + incr >= FieldLimit(t);
    }
  }

  lemma RemainderIsUnique(y: int, m: int, d: int, r: nat)
    requires m > 0 && y == m * d + r && r < m
    ensures y % m == r
  {
    var e := d - y / m;
    assert m * e == m * d - m * (y / m);
    assert e >= 1 ==> m * e >= m;
    assert e <= -1 ==> m * e <= -m;
  }

  /** What the assertion compares with: the increment after the cast. */
  function Cast(incr: int): int {
    if incr >= 0 then incr % 0x1_0000_0000 else -((-incr) % 0x1_0000_0000)
  }

  lemma CastDropsMultiples(incr: int) returns (q: int)
    ensures incr == Cast(incr) + 0x1_0000_0000 * q
  {
    q := if incr >= 0 then incr / 0x1_0000_0000 else -((-incr) / 0x1_0000_0000);
  }

  lemma CastFits(t: SdsType, len: nat, alloc: nat, incr: int)
    requires t != SDS_TYPE_5 && t != SDS_TYPE_64 && len <= alloc && IncrAccepted(t, len, alloc, incr)
    ensures 0 <= len + Cast(incr) <= alloc && (incr < 0 ==> Cast(incr) <= 0)
  {
    if incr >= 0 {
      assert incr % 0x1_0000_0000 <= incr;
    }
  }

  /** Multiples of 2 to the 32 vanish in the narrower fields. */
  lemma NarrowResult(t: SdsType, len: nat, incr: int, q: int, r: nat)
    requires t != SDS_TYPE_5 && t != SDS_TYPE_64 && r < FieldLimit(t)
    requires len + incr == r + 0x1_0000_0000 * q
    ensures IncrResult(t, len, incr) == r
  {
    if t == SDS_TYPE_8 {
      RemainderIsUnique(len + incr, 0x100, 0x100_0000 * q, r);
    } else if t == SDS_TYPE_16 {
      RemainderIsUnique(len + incr, 0x1_0000, 0x1_0000 * q, r);
    } else {
      RemainderIsUnique(len + incr, 0x1_0000_0000, q, r);
    }
  }

  /** Beyond type 5, an accepted increment never leaves the capacity, casts or not. */
  lemma IncrStaysInside(t: SdsType, len: nat, alloc: nat, incr: int)
    requires t != SDS_TYPE_5 && len <= alloc < FieldLimit(t) && IncrAccepted(t, len, alloc, incr)
    ensures IncrResult(t, len, incr) <= alloc
    ensures incr < 0 ==> IncrResult(t, len, incr) <= len
  {
    if t == SDS_TYPE_64 {
      ModExact(len + incr, SIZE_LIMIT);
    } else {
      CastFits(t, len, alloc, incr);
      var q := CastDropsMultiples(incr);
      NarrowResult(t, len, incr, q, len + Cast(incr));
    }
  }

  /** In type 5 a decrement of 2 to the 32 or more that passes the cast wraps around: the
      terminator goes to the far end of the address space. */
  lemma IncrWideDecrementWraps(len: nat, incr: int)
    requires len < 32 && -0x8000_0000_0000_0000 <= incr <= -0x1_0000_0000
    ensures IncrResult(SDS_TYPE_5, len, incr) == SIZE_LIMIT + len + incr >= 0x8000_0000_0000_0000
  {
    RemainderIsUnique(len + incr, SIZE_LIMIT, -1, SIZE_LIMIT + len + incr);
  }

  /** In type 5 the assertion looks at the width of the length only and compares a decrement
      after a cast. The terminator it lets through lies in the block, which such a string has
      of at most 32 bytes, exactly under this condition. */
  lemma IncrTypeFiveInBlockIff(len: nat, block: nat, incr: int)
    requires len < block <= 32 && IncrAccepted(SDS_TYPE_5, len, len, incr)
    requires -0x8000_0000_0000_0000 <= incr < 0x8000_0000_0000_0000
    ensures IncrResult(SDS_TYPE_5, len, incr) < block <==> -0x1_0000_0000 < incr < block - len
  {
    if incr <= -0x1_0000_0000 {
      IncrWideDecrementWraps(len, incr);
    } else {
      ModExact(-incr, 0x1_0000_0000);
      ModExact(len + incr, SIZE_LIMIT);
    }
  }

  /** An accepted increment stays in the capacity that the header tells exactly in types 8
      to 64, and in type 5 for decrements that survive the cast. */
  lemma IncrStaysInsideIff(t: SdsType, len: nat, alloc: nat, incr: int)
    requires len <= alloc < FieldLimit(t) && (t == SDS_TYPE_5 ==> alloc == len)
    requires IncrAccepted(t, len, alloc, incr)
    requires -0x8000_0000_0000_0000 <= incr < 0x8000_0000_0000_0000
    ensures IncrResult(t, len, incr) <= alloc <==> t != SDS_TYPE_5 || -0x1_0000_0000 < incr < 0
  {
    if t == SDS_TYPE_5 {
      IncrTypeFiveInBlockIff(len, len + 1, incr);
    } else {
      IncrStaysInside(t, len, alloc, incr);
    }
  }

  /** An accepted decrement whose terminator lands 2 to the 64 minus 2 to the 32 bytes behind
      the one that was there, and an accepted increment without room. */
  lemma IncrTypeFiveEscapes()
    ensures IncrAccepted(SDS_TYPE_5, 5, 5, -0x1_0000_0000)
    ensures IncrResult(SDS_TYPE_5, 5, -0x1_0000_0000) == 0x1_0000_0000_0000_0000 - 0x1_0000_0000 + 5
    ensures IncrAccepted(SDS_TYPE_5, 5, 5, 1) && IncrResult(SDS_TYPE_5, 5, 1) == 6
  {
    IncrWideDecrementWraps(5, -0x1_0000_0000);
  }

  /** The assertion does not stop a decrement by 2 to the 32: the length stays as it is. */
  lemma IncrWideDecrementIsLost()
    ensures IncrAccepted(SDS_TYPE_8, 5, 5, -0x1_0000_0000)
    ensures IncrResult(SDS_TYPE_8, 5, -0x1_0000_0000) == 5
  {
  }

  /** An increment of 2 to the 32 or more is accepted in types 32 and 64 only; type 32 accepts
      it exactly if there is room for its low 32 bits, by which the length then grows. */
  lemma IncrWideIncrementIff(t: SdsType, len: nat, alloc: nat, incr: int)
    requires len <= alloc < FieldLimit(t) && 0x1_0000_0000 <= incr < 0x8000_0000_0000_0000
    ensures IncrAccepted(t, len, alloc, incr) <==>
      (t == SDS_TYPE_64 && len + incr <= alloc) || (t == SDS_TYPE_32 && len + incr % 0x1_0000_0000 <= alloc)
    ensures t == SDS_TYPE_32 && IncrAccepted(t, len, alloc, incr) ==>
      IncrResult(t, len, incr) == len + incr % 0x1_0000_0000
  {
    if t == SDS_TYPE_32 && IncrAccepted(t, len, alloc, incr) {
      NarrowResult(t, len, incr, incr / 0x1_0000_0000, len + incr % 0x1_0000_0000);
    }
  }

  /** So a wide increment can be lost as well. */
  lemma IncrWideIncrementIsLost()
    ensures IncrAccepted(SDS_TYPE_32, 5, 5, 0x1_0000_0000)
    ensures IncrResult(SDS_TYPE_32, 5, 0x1_0000_0000) == 5
  {
  }
}
