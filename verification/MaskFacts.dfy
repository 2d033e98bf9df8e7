/** The mask-and-shift expressions of the components on real 64-bit vectors.

    `WordOf` reads a UINT64 register as the word the model works on; every register contents is read as
    one word, and every word is read from one register contents.  Each main lemma says that an expression of the
    source, computed on any register contents, is read as the lane move the model makes. */
module MaskFacts {
  import opened Basics
  import opened Words
  import opened IcmpSpec
  import opened RouteSpec
  import opened ArpSpec

  // ---------- lanes ----------

  function Pack(h0: bv16, h1: bv16, h2: bv16, h3: bv16): bv64 {
    ((h0 as bv64) << 48) | ((h1 as bv64) << 32) | ((h2 as bv64) << 16) | (h3 as bv64)
  }

  function H0(w: bv64): bv16 { ((w >> 48) & 0xFFFF) as bv16 }
  function H1(w: bv64): bv16 { ((w >> 32) & 0xFFFF) as bv16 }
  function H2(w: bv64): bv16 { ((w >> 16) & 0xFFFF) as bv16 }
  function H3(w: bv64): bv16 { (w & 0xFFFF) as bv16 }

  lemma PackLanes(w: bv64, h0: bv16, h1: bv16, h2: bv16, h3: bv16)
    ensures Pack(H0(w), H1(w), H2(w), H3(w)) == w
    ensures var p := Pack(h0, h1, h2, h3); H0(p) == h0 && H1(p) == h1 && H2(p) == h2 && H3(p) == h3
  {
  }

  function Hi(b: bv16): bv8 { (b >> 8) as bv8 }
  function Lo(b: bv16): bv8 { (b & 0xFF) as bv8 }

  /** The number a lane stands for. */
  function Int(b: bv16): Half { 0x100 * (Hi(b) as int) + (Lo(b) as int) }

  /** A register with its flags, read as a word. */
  function WordOf(d: bv64, sop: Octet, eop: Octet, empty: Octet): Word {
    Word(Int(H0(d)), Int(H1(d)), Int(H2(d)), Int(H3(d)), sop, eop, empty)
  }

  /** Two words as the components hold them: data and flags. */
  datatype Reg = Reg(data: bv64, sop: Octet, eop: Octet, empty: Octet)
  {
    function Read(): Word { WordOf(data, sop, eop, empty) }
  }

  // ---------- registers and words correspond one to one ----------

  lemma NextByte(x: bv8)
    requires (x as int) < 0xFF
    ensures (x + 1) as int == (x as int) + 1
  {
  }

  function ByteOf(x: Octet): (b: bv8)
    ensures b as int == x
  {
    if x == 0 then 0 else NextByte(ByteOf(x - 1)); ByteOf(x - 1) + 1
  }

  function Lane(h: Half): bv16 { ((ByteOf(h / 0x100) as bv16) << 8) | (ByteOf(h % 0x100) as bv16) }

  function Data(w: Word): bv64 { Pack(Lane(w.h0), Lane(w.h1), Lane(w.h2), Lane(w.h3)) }

  lemma JoinBytes(hi: bv8, lo: bv8)
    ensures var b := ((hi as bv16) << 8) | (lo as bv16); Hi(b) == hi && Lo(b) == lo
  {
  }

  lemma LaneBack(h: Half)
    ensures Int(Lane(h)) == h
  {
    hide Hi, Lo, ByteOf;
    JoinBytes(ByteOf(h / 0x100), ByteOf(h % 0x100));
  }

  lemma SameByte(x: bv8, y: bv8)
    ensures x as int == y as int <==> x == y
  {
  }

  lemma Digits(a: Octet, b: Octet, c: Octet, d: Octet)
    ensures 0x100 * a + b == 0x100 * c + d <==> a == c && b == d
  {
  }

  lemma SameBytes(h: bv8, l: bv8, g: bv8, k: bv8)
    ensures 0x100 * (h as int) + (l as int) == 0x100 * (g as int) + (k as int) <==> h == g && l == k
  {
    Digits(h as int, l as int, g as int, k as int);
    SameByte(h, g);
    SameByte(l, k);
  }

  lemma SplitLane(b: bv16, c: bv16)
    ensures b == c <==> Hi(b) == Hi(c) && Lo(b) == Lo(c)
  {
  }

  /** Different lane contents stand for different numbers. */
  lemma SameLane(b: bv16, c: bv16)
    ensures Int(b) == Int(c) <==> b == c
  {
    SplitLane(b, c);
    hide Hi, Lo;
    SameBytes(Hi(b), Lo(b), Hi(c), Lo(c));
  }

  /** Every word is the reading of exactly one register contents. */
  lemma OneToOne(w: Word, d: bv64)
    ensures WordOf(d, w.sop, w.eop, w.empty) == w <==> d == Data(w)
  {
    hide Int, Lane, H0, H1, H2, H3, Pack;
    var p := Data(w);
    PackLanes(d, Lane(w.h0), Lane(w.h1), Lane(w.h2), Lane(w.h3));
    LaneBack(w.h0); LaneBack(w.h1); LaneBack(w.h2); LaneBack(w.h3);
    SameLane(H0(d), H0(p)); SameLane(H1(d), H1(p)); SameLane(H2(d), H2(p)); SameLane(H3(d), H3(p));
    SameRegister(d, p);
  }

  lemma SameRegister(d: bv64, p: bv64)
    ensures d == p <==> H0(d) == H0(p) && H1(d) == H1(p) && H2(d) == H2(p) && H3(d) == H3(p)
  {
  }

  // ---------- icmp_proc_swapmac and icmp_proc_swapip ----------

  lemma MacLeadMask(s1: bv64, s0: bv64)
    ensures ((s1 << 48) & 0xFFFF000000000000) | ((s0 >> 16) & 0x0000FFFFFFFF0000) | ((s1 >> 48) & 0x000000000000FFFF)
         == Pack(H3(s1), H0(s0), H1(s0), H0(s1))
  {
  }

  lemma MacTrailMask(s1: bv64, s0: bv64)
    ensures ((s1 << 16) & 0xFFFFFFFF00000000) | (s0 & 0x00000000FFFFFFFF) == Pack(H1(s1), H2(s1), H2(s0), H3(s0))
  {
  }

  lemma IpLeadMask(s1: bv64, s0: bv64)
    ensures (s1 & 0xFFFF000000000000) | ((s1 << 32) & 0x0000FFFF00000000)
            | ((s0 >> 32) & 0x00000000FFFF0000) | ((s1 >> 32) & 0x000000000000FFFF)
         == Pack(H0(s1), H3(s1), H0(s0), H1(s1))
  {
  }

  lemma IpTrailMask(s1: bv64, s0: bv64)
    ensures ((s1 << 32) & 0xFFFF000000000000) | (s0 & 0x0000FFFFFFFFFFFF) == Pack(H2(s1), H1(s0), H2(s0), H3(s0))
  {
  }

  /** The word put together from four lanes. */
  lemma ReadPack(h0: bv16, h1: bv16, h2: bv16, h3: bv16, sop: Octet, eop: Octet, empty: Octet)
    ensures WordOf(Pack(h0, h1, h2, h3), sop, eop, empty) == Word(Int(h0), Int(h1), Int(h2), Int(h3), sop, eop, empty)
  {
    hide Int, H0, H1, H2, H3, Pack;
    PackLanes(0, h0, h1, h2, h3);
  }

  lemma MacLeadIs(s1: Reg, s0: Reg)
    ensures var data := ((s1.data << 48) & 0xFFFF000000000000) | ((s0.data >> 16) & 0x0000FFFFFFFF0000)
                        | ((s1.data >> 48) & 0x000000000000FFFF);
            s1.(data := data).Read() == MacLead(s1.Read(), s0.Read())
  {
    hide Int, H0, H1, H2, H3, Pack;
    MacLeadMask(s1.data, s0.data);
    ReadPack(H3(s1.data), H0(s0.data), H1(s0.data), H0(s1.data), s1.sop, s1.eop, s1.empty);
  }

  lemma MacTrailIs(s1: Reg, s0: Reg)
    ensures var data := ((s1.data << 16) & 0xFFFFFFFF00000000) | (s0.data & 0x00000000FFFFFFFF);
            s0.(data := data).Read() == MacTrail(s1.Read(), s0.Read())
  {
    hide Int, H0, H1, H2, H3, Pack;
    MacTrailMask(s1.data, s0.data);
    ReadPack(H1(s1.data), H2(s1.data), H2(s0.data), H3(s0.data), s0.sop, s0.eop, s0.empty);
  }

  lemma IpLeadIs(s1: Reg, s0: Reg)
    ensures var data := (s1.data & 0xFFFF000000000000) | ((s1.data << 32) & 0x0000FFFF00000000)
                        | ((s0.data >> 32) & 0x00000000FFFF0000) | ((s1.data >> 32) & 0x000000000000FFFF);
            s1.(data := data).Read() == IpLead(s1.Read(), s0.Read())
  {
    hide Int, H0, H1, H2, H3, Pack;
    IpLeadMask(s1.data, s0.data);
    ReadPack(H0(s1.data), H3(s1.data), H0(s0.data), H1(s1.data), s1.sop, s1.eop, s1.empty);
  }

  lemma IpTrailIs(s1: Reg, s0: Reg)
    ensures var data := ((s1.data << 32) & 0xFFFF000000000000) | (s0.data & 0x0000FFFFFFFFFFFF);
            s0.(data := data).Read() == IpTrail(s1.Read(), s0.Read())
  {
    hide Int, H0, H1, H2, H3, Pack;
    IpTrailMask(s1.data, s0.data);
    ReadPack(H2(s1.data), H1(s0.data), H2(s0.data), H3(s0.data), s0.sop, s0.eop, s0.empty);
  }

  // ---------- arithmetic on lanes ----------

  lemma LowByte(b: bv16)
    ensures Int(b & 0x00FF) == Int(b) % 0x100
  {
    hide Hi, Lo;
    LowByteBits(b);
    LowOf(Hi(b) as int, Lo(b) as int);
  }

  lemma LowOf(hi: nat, lo: nat)
    requires lo < 0x100
    ensures (0x100 * hi + lo) % 0x100 == lo
  {
  }

  lemma LowByteBits(b: bv16)
    ensures Hi(b & 0x00FF) == 0 && Lo(b & 0x00FF) == Lo(b)
  {
  }

  lemma FlipByte(x: bv8)
    ensures (!x) as int == 0xFF - (x as int)
  {
  }

  lemma FlipBits(b: bv16)
    ensures Hi(!b) == !Hi(b) && Lo(!b) == !Lo(b)
  {
  }

  lemma Flip(b: bv16)
    ensures Int(!b) == 0xFFFF - Int(b)
  {
    hide Hi, Lo;
    FlipBits(b);
    FlipByte(Hi(b));
    FlipByte(Lo(b));
  }

  /** The UINT16 arithmetic of icmp_proc_param as it stands in the source. */
  function Adjusted(field: bv16): bv16 {
    var chksum := !field;
    var less := if chksum < 0x0800 then chksum - 1 else chksum;
    !(less - 0x0800)
  }

  lemma AdjustedBits(b: bv16)
    ensures Hi(b) < 0xF8 ==> Hi(Adjusted(b)) == Hi(b) + 8 && Lo(Adjusted(b)) == Lo(b)
    ensures Hi(b) >= 0xF8 && Lo(b) < 0xFF ==> Hi(Adjusted(b)) == Hi(b) - 0xF8 && Lo(Adjusted(b)) == Lo(b) + 1
    ensures Hi(b) >= 0xF8 && Lo(b) == 0xFF ==> Hi(Adjusted(b)) == Hi(b) - 0xF7 && Lo(Adjusted(b)) == 0
  {
  }

  lemma MoveByte(x: bv8)
    ensures x < 0xF8 ==> (x + 8) as int == (x as int) + 8
    ensures x >= 0xF8 ==> (x - 0xF8) as int == (x as int) - 0xF8 && (x - 0xF7) as int == (x as int) - 0xF7
    ensures x < 0xFF ==> (x + 1) as int == (x as int) + 1
    ensures x < 0xF8 <==> (x as int) < 0xF8
    ensures x == 0xFF <==> (x as int) == 0xFF
  {
  }

  lemma AddBytes(hi: Octet, lo: Octet)
    ensures UpdateSum(0x100 * hi + lo) ==
      if hi < 0xF8 then 0x100 * (hi + 8) + lo
      else if lo < 0xFF then 0x100 * (hi - 0xF8) + (lo + 1)
      else 0x100 * (hi - 0xF7)
  {
  }

  /** It is the function the model uses. */
  lemma AdjustedIs(b: bv16)
    ensures Int(Adjusted(b)) == UpdateSum(Int(b))
  {
    hide Hi, Lo, Adjusted, UpdateSum;
    AdjustedBits(b);
    MoveByte(Hi(b));
    MoveByte(Lo(b));
    AddBytes(Hi(b) as int, Lo(b) as int);
  }

  // ---------- icmp_proc_param and icmp_proc_ipv4chksum ----------

  /** Stage 1 of icmp_proc_param for word 4. */
  function ParamData(s0: bv64): bv64 {
    var chksum := Adjusted(((s0 >> 16) & 0xFFFF) as bv16);
    (s0 & 0xFFFF00FF0000FFFF) | ((chksum as bv64) << 16)
  }

  lemma ParamMask(s0: bv64, chksum: bv16)
    ensures (s0 & 0xFFFF00FF0000FFFF) | ((chksum as bv64) << 16) == Pack(H0(s0), H1(s0) & 0x00FF, chksum, H3(s0))
  {
  }

  lemma ParamLanes(s0: bv64)
    ensures ParamData(s0) == Pack(H0(s0), H1(s0) & 0x00FF, Adjusted(H2(s0)), H3(s0))
  {
    hide Adjusted, Pack, H0, H1, H3;
    ParamMask(s0, Adjusted(H2(s0)));
  }

  lemma ParamWordIs(s0: Reg)
    ensures s0.(data := ParamData(s0.data)).Read() == ParamWord(s0.Read())
  {
    hide Int, H0, H1, H2, H3, Pack, Adjusted, UpdateSum, ParamData;
    var d := s0.data;
    ParamLanes(d);
    ReadPack(H0(d), H1(d) & 0x00FF, Adjusted(H2(d)), H3(d), s0.sop, s0.eop, s0.empty);
    LowByte(H1(d));
    AdjustedIs(H2(d));
  }

  /** Stage 3 of icmp_proc_ipv4chksum for word 3. */
  function ChksumData(s2: bv64, checksum: bv24): bv64 {
    (((!checksum) as bv64 << 48) & 0xFFFF000000000000) | (s2 & 0x0000FFFFFFFFFFFF)
  }

  function Low16(c: bv24): bv16 { (c & 0xFFFF) as bv16 }

  lemma ChksumMask(s2: bv64, checksum: bv24)
    ensures ChksumData(s2, checksum) == Pack(!Low16(checksum), H1(s2), H2(s2), H3(s2))
  {
  }

  /** The number the 24-bit register stands for. */
  function Int24(c: bv24): nat { 0x1_0000 * (((c >> 16) & 0xFF) as bv8 as int) + Int(Low16(c)) }

  lemma ChksumWordIs(s2: Reg, checksum: bv24)
    ensures s2.(data := ChksumData(s2.data, checksum)).Read() == s2.Read().(h0 := SumField(Int24(checksum)))
  {
    hide Int, H0, H1, H2, H3, Pack, ChksumData, Low16, Int24;
    var d := s2.data;
    ChksumMask(d, checksum);
    ReadPack(!Low16(checksum), H1(d), H2(d), H3(d), s2.sop, s2.eop, s2.empty);
    Flip(Low16(checksum));
    LowHalf(checksum);
  }

  lemma LowHalf(c: bv24)
    ensures Int24(c) % 0x1_0000 == Int(Low16(c))
  {
    hide Int, Low16;
  }

  // ---------- the accumulator of icmp_proc_ipv4chksum ----------

  function Num(x: bv8): Octet { x as int }

  function Sum8(x: bv8, y: bv8): bv8 { x + y }

  function Carry(x: bv8, y: bv8): bv8 { if x + y < x then 1 else 0 }

  function Up(x: bv8): bv8 { x + 1 }

  function Down(x: bv8): bv8 { x - 1 }

  lemma UpSum(x: bv8, y: bv8)
    ensures Sum8(x, 0) == x && Up(Down(y)) == y && Up(Sum8(x, Down(y))) == Sum8(x, y)
  {
  }

  lemma UpIs(x: bv8)
    ensures Num(Up(x)) == if Num(x) == 0xFF then 0 else Num(x) + 1
  {
  }

  lemma NumOrder(x: bv8, y: bv8)
    ensures x < y <==> Num(x) < Num(y)
  {
  }

  lemma NumZero(x: bv8)
    ensures Num(x) == 0 <==> x == 0
  {
  }

  /** Eight-bit addition. */
  lemma {:induction false} Sum8Is(x: bv8, y: bv8)
    ensures Num(Sum8(x, y)) == if Num(x) + Num(y) < 0x100 then Num(x) + Num(y) else Num(x) + Num(y) - 0x100
    decreases Num(y)
  {
    hide *;
    UpSum(x, y);
    NumZero(y);
    if Num(y) != 0 {
      UpIs(Down(y));
      Sum8Is(x, Down(y));
      UpIs(Sum8(x, Down(y)));
    }
  }

  lemma CarryIs(x: bv8, y: bv8)
    ensures Num(Carry(x, y)) == if Num(x) + Num(y) < 0x100 then 0 else 1
    ensures Carry(x, y) == 1 <==> Num(x) + Num(y) >= 0x100
  {
    Overflows(x, y);
    hide Sum8, Carry;
    Sum8Is(x, y);
    NumOrder(Sum8(x, y), x);
  }

  lemma Overflows(x: bv8, y: bv8)
    ensures Carry(x, y) == if Sum8(x, y) < x then 1 else 0
  {
  }

  function B0(c: bv24): bv8 { (c & 0xFF) as bv8 }
  function B1(c: bv24): bv8 { ((c >> 8) & 0xFF) as bv8 }
  function B2(c: bv24): bv8 { ((c >> 16) & 0xFF) as bv8 }

  /** Addition of UINT24. */
  function Plus(a: bv24, b: bv24): bv24 { a + b }

  lemma PlusLow(a: bv24, b: bv24)
    ensures B0(Plus(a, b)) == Sum8(B0(a), B0(b))
  {
  }

  lemma PlusMiddle(a: bv24, b: bv24)
    ensures B1(Plus(a, b)) == Sum8(Sum8(B1(a), B1(b)), Carry(B0(a), B0(b)))
  {
  }

  predicate Overflow16(a: bv24, b: bv24) { (a & 0xFFFF) + (b & 0xFFFF) >= 0x1_0000 }

  lemma PlusHigh(a: bv24, b: bv24)
    ensures B2(Plus(a, b)) == Sum8(Sum8(B2(a), B2(b)), if Overflow16(a, b) then 1 else 0)
  {
  }

  predicate Reach(x: bv8, y: bv8, k: bv16) { (x as bv16) + (y as bv16) >= k }

  lemma OverflowQuiet(a: bv24, b: bv24)
    requires !Reach(B0(a), B0(b), 0x100)
    ensures Overflow16(a, b) <==> Reach(B1(a), B1(b), 0x100)
  {
  }

  lemma OverflowCarried(a: bv24, b: bv24)
    requires Reach(B0(a), B0(b), 0x100)
    ensures Overflow16(a, b) <==> Reach(B1(a), B1(b), 0xFF)
  {
  }

  lemma ReachIs(x: bv8, y: bv8)
    ensures Reach(x, y, 0x100) <==> Carry(x, y) == 1
    ensures Reach(x, y, 0xFF) <==> Carry(x, y) == 1 || Sum8(x, y) == 0xFF
  {
  }

  lemma Overflow16Is(a: bv24, b: bv24)
    ensures Overflow16(a, b) <==> Carry(B1(a), B1(b)) == 1 || (Carry(B0(a), B0(b)) == 1 && Sum8(B1(a), B1(b)) == 0xFF)
  {
    hide *;
    ReachIs(B0(a), B0(b));
    ReachIs(B1(a), B1(b));
    if Reach(B0(a), B0(b), 0x100) { OverflowCarried(a, b); } else { OverflowQuiet(a, b); }
  }

  lemma NumIs(x: bv8)
    ensures Num(0) == 0 && Num(1) == 1 && (Num(x) == 0xFF <==> x == 0xFF)
  {
  }

  lemma ThreeBytes(c: bv24)
    ensures Int24(c) == 0x1_0000 * Num(B2(c)) + 0x100 * Num(B1(c)) + Num(B0(c))
  {
    TwoBytes(c);
  }

  lemma TwoBytes(c: bv24)
    ensures Hi(Low16(c)) == B1(c) && Lo(Low16(c)) == B0(c)
  {
  }

  /** The bytes of a sum as numbers, with the carries. */
  lemma PlusBytes(a: bv24, b: bv24)
    ensures var c1 := if Num(B0(a)) + Num(B0(b)) < 0x100 then 0 else 1;
            var c2 := if Num(B1(a)) + Num(B1(b)) + c1 < 0x100 then 0 else 1;
            var top := Num(B2(Plus(a, b)));
            && Num(B0(Plus(a, b))) == Num(B0(a)) + Num(B0(b)) - 0x100 * c1
            && Num(B1(Plus(a, b))) == Num(B1(a)) + Num(B1(b)) + c1 - 0x100 * c2
            && (top == Num(B2(a)) + Num(B2(b)) + c2 || top == Num(B2(a)) + Num(B2(b)) + c2 - 0x100)
  {
    hide *;
    PlusLow(a, b); PlusMiddle(a, b); PlusHigh(a, b);
    Overflow16Is(a, b);
    var c, m := Carry(B0(a), B0(b)), Sum8(B1(a), B1(b));
    NumIs(m);
    CarryIs(B0(a), B0(b)); CarryIs(B1(a), B1(b));
    Sum8Is(B0(a), B0(b)); Sum8Is(B1(a), B1(b)); Sum8Is(m, c);
    Sum8Is(B2(a), B2(b)); Sum8Is(Sum8(B2(a), B2(b)), if Overflow16(a, b) then 1 else 0);
  }

  /** Three digits to the base 256 added with carries. */
  lemma AddDigits(a0: nat, a1: nat, a2: nat, b0: nat, b1: nat, b2: nat, s0: Octet, s1: Octet, s2: Octet)
    requires var c1 := if a0 + b0 < 0x100 then 0 else 1;
             var c2 := if a1 + b1 + c1 < 0x100 then 0 else 1;
             && s0 == a0 + b0 - 0x100 * c1 && s1 == a1 + b1 + c1 - 0x100 * c2
             && (s2 == a2 + b2 + c2 || s2 == a2 + b2 + c2 - 0x100)
    ensures 0x1_0000 * s2 + 0x100 * s1 + s0
         == Add24(0x1_0000 * a2 + 0x100 * a1 + a0, 0x1_0000 * b2 + 0x100 * b1 + b0)
  {
  }

  /** UINT24 addition is addition modulo 2 to the 24. */
  lemma PlusIs(a: bv24, b: bv24)
    ensures Int24(Plus(a, b)) == Add24(Int24(a), Int24(b))
  {
    hide *;
    PlusBytes(a, b);
    var s := Plus(a, b);
    var a0, a1, a2 := Num(B0(a)), Num(B1(a)), Num(B2(a));
    var b0, b1, b2 := Num(B0(b)), Num(B1(b)), Num(B2(b));
    AddDigits(a0, a1, a2, b0, b1, b2, Num(B0(s)), Num(B1(s)), Num(B2(s)));
    ThreeBytes(a); ThreeBytes(b); ThreeBytes(s);
  }

  /** A lane widened to UINT24. */
  function Wide(h: bv16): bv24 { h as bv24 }

  lemma WideIs(h: bv16)
    ensures Int24(Wide(h)) == Int(h)
  {
    WideBits(h);
  }

  lemma WideBits(h: bv16)
    ensures Low16(Wide(h)) == h && ((Wide(h) >> 16) & 0xFF) as bv8 == 0
  {
  }

  lemma WideLanes(d: bv64)
    ensures ((d >> 48) & 0x000000000000FFFF) as bv24 == Wide(H0(d))
    ensures ((d >> 32) & 0x000000000000FFFF) as bv24 == Wide(H1(d))
    ensures ((d >> 16) & 0x000000000000FFFF) as bv24 == Wide(H2(d))
    ensures (d & 0x000000000000FFFF) as bv24 == Wide(H3(d))
  {
  }

  /** Case 1: the register restarts with the last lane of word 1. */
  lemma AccumulateWord1(before: nat, w: Reg)
    ensures Int24((w.data & 0x000000000000FFFF) as bv24) == Accumulate(before, 1, w.Read())
  {
    WideLanes(w.data);
    WideIs(H3(w.data));
    hide Int24, Wide, Int, H0, H1, H2, H3;
  }

  lemma NoWrap(a: nat, b: nat)
    requires a + b < 0x100_0000
    ensures Add24(a, b) == a + b
  {
  }

  lemma FourLanes(a: Half, b: Half, c: Half, d: Half)
    ensures Add24(Add24(Add24(a, b), c), d) == a + b + c + d && Add24(Add24(b, c), d) == b + c + d
  {
    hide Add24;
    NoWrap(a, b); NoWrap(a + b, c); NoWrap(a + b + c, d);
    NoWrap(b, c); NoWrap(b + c, d);
  }

  /** Case 2: four lanes are added. */
  lemma AccumulateWord2(checksum: bv24, w: Reg)
    ensures var d := w.data;
            Int24(Plus(checksum, Plus(Plus(Plus(((d >> 48) & 0x000000000000FFFF) as bv24,
                                                ((d >> 32) & 0x000000000000FFFF) as bv24),
                                           ((d >> 16) & 0x000000000000FFFF) as bv24),
                                      (d & 0x000000000000FFFF) as bv24)))
              == Accumulate(Int24(checksum), 2, w.Read())
  {
    hide Int24, Wide, Int, H0, H1, H2, H3, Plus, Add24;
    var d := w.data;
    WideLanes(d);
    WideIs(H0(d)); WideIs(H1(d)); WideIs(H2(d)); WideIs(H3(d));
    var s01 := Plus(Wide(H0(d)), Wide(H1(d)));
    var s012 := Plus(s01, Wide(H2(d)));
    PlusIs(Wide(H0(d)), Wide(H1(d)));
    PlusIs(s01, Wide(H2(d)));
    PlusIs(s012, Wide(H3(d)));
    PlusIs(checksum, Plus(s012, Wide(H3(d))));
    FourLanes(Int(H0(d)), Int(H1(d)), Int(H2(d)), Int(H3(d)));
  }

  /** Case 3: three lanes are added. */
  lemma AccumulateWord3(checksum: bv24, w: Reg)
    ensures var d := w.data;
            Int24(Plus(checksum, Plus(Plus(((d >> 32) & 0x000000000000FFFF) as bv24,
                                           ((d >> 16) & 0x000000000000FFFF) as bv24),
                                      (d & 0x000000000000FFFF) as bv24)))
              == Accumulate(Int24(checksum), 3, w.Read())
  {
    hide Int24, Wide, Int, H0, H1, H2, H3, Plus, Add24;
    var d := w.data;
    WideLanes(d);
    WideIs(H1(d)); WideIs(H2(d)); WideIs(H3(d));
    var s12 := Plus(Wide(H1(d)), Wide(H2(d)));
    PlusIs(Wide(H1(d)), Wide(H2(d)));
    PlusIs(s12, Wide(H3(d)));
    PlusIs(checksum, Plus(s12, Wide(H3(d))));
    FourLanes(Int(H0(d)), Int(H1(d)), Int(H2(d)), Int(H3(d)));
  }

  lemma Halves(c: bv24)
    ensures Int24(LowWord(c)) == Int24(c) % 0x1_0000 && Int24(HighWord(c)) == Int24(c) / 0x1_0000
  {
    LowHalf(c);
    HalvesBits(c);
  }

  lemma HalvesBits(c: bv24)
    ensures LowWord(c) == Wide(Low16(c)) && HighWord(c) == Wide(B2(c) as bv16)
  {
  }

  function LowWord(c: bv24): bv24 { c & 0x0000FFFF }
  function HighWord(c: bv24): bv24 { (c >> 16) & 0x0000FFFF }

  lemma Folded(c: bv24)
    ensures Int24(Plus(LowWord(c), HighWord(c))) == Add24(Int24(c) % 0x1_0000, Int24(c) / 0x1_0000)
  {
    Halves(c);
    hide Int24, Plus, Add24;
    PlusIs(LowWord(c), HighWord(c));
  }

  /** Case 4: the last lane is added and the carries are moved down once. */
  lemma AccumulateWord4(checksum: bv24, w: Reg)
    ensures var c := Plus(checksum, ((w.data >> 48) & 0x000000000000FFFF) as bv24);
            Int24(Plus(LowWord(c), HighWord(c))) == Accumulate(Int24(checksum), 4, w.Read())
  {
    hide Int24, Wide, Int, H0, H1, H2, H3, Plus, Add24, LowWord, HighWord;
    WideLanes(w.data);
    WideIs(H0(w.data));
    PlusIs(checksum, Wide(H0(w.data)));
    Folded(Plus(checksum, Wide(H0(w.data))));
  }

  // ---------- rx_split ----------

  lemma RouteMask(s1: bv64)
    ensures s1 & 0x00000000FFFF0000 == 0x0000000008060000 <==> H2(s1) == 0x0806
    ensures s1 & 0x00000000FFFF0000 == 0x0000000008000000 <==> H2(s1) == 0x0800
    ensures s1 & 0x00000000000000FF == 0x0000000000000001 <==> H3(s1) & 0x00FF == 0x0001
  {
  }

  lemma RouteConstants()
    ensures Int(0x0806) == 0x0806 && Int(0x0800) == 0x0800 && Int(0x0001) == 0x0001
  {
  }

  /** The routing decisions of both routers. */
  lemma RouteIs(s1: Reg)
    ensures EtypeRoute(s1.Read()) ==
      if s1.data & 0x00000000FFFF0000 == 0x0000000008060000 then ToArp
      else if s1.data & 0x00000000FFFF0000 == 0x0000000008000000 then ToIpv4 else ToOther
    ensures ProtoRoute(s1.Read()) == if s1.data & 0x00000000000000FF == 0x0000000000000001 then ToIcmp else ToOther
  {
    hide Int, H0, H1, H2, H3;
    var d := s1.data;
    RouteMask(d);
    RouteConstants();
    SameLane(H2(d), 0x0806);
    SameLane(H2(d), 0x0800);
    SameLane(H3(d) & 0x00FF, 0x0001);
    LowByte(H3(d));
  }

  // ---------- arp_proc ----------

  lemma ArpFieldMasks(s3: bv64, s2: bv64, s1: bv64, s0: bv64)
    ensures (s3 >> 16) & 0x00000000000000FF == (H2(s3) & 0x00FF) as bv64
    ensures ((s3 << 32) & 0x0000FFFF00000000) | ((s2 >> 32) & 0x00000000FFFFFFFF) == Pack(0, H3(s3), H0(s2), H1(s2))
    ensures s2 & 0x00000000FFFFFFFF == Pack(0, 0, H2(s2), H3(s2))
    ensures ((s1 << 16) & 0x00000000FFFF0000) | ((s0 >> 48) & 0x000000000000FFFF) == Pack(0, 0, H3(s1), H0(s0))
  {
  }

  /** A UINT48 hardware address and a UINT32 protocol address, as the model reads them. */
  function MacOf(m: bv64): Mac { Mac(Int(H1(m)), Int(H2(m)), Int(H3(m))) }
  function IpOf(a: bv64): Ip { Ip(Int(H2(a)), Int(H3(a))) }

  /** The received fields: sender hardware address, sender and target protocol address. */
  lemma ArpFieldsAre(s3: Reg, s2: Reg, s1: Reg, s0: Reg)
    ensures MacOf(((s3.data << 32) & 0x0000FFFF00000000) | ((s2.data >> 32) & 0x00000000FFFFFFFF))
         == Mac(s3.Read().h3, s2.Read().h0, s2.Read().h1)
    ensures IpOf(s2.data & 0x00000000FFFFFFFF) == Ip(s2.Read().h2, s2.Read().h3)
    ensures IpOf(((s1.data << 16) & 0x00000000FFFF0000) | ((s0.data >> 48) & 0x000000000000FFFF))
         == Ip(s1.Read().h3, s0.Read().h0)
  {
    hide Int, H0, H1, H2, H3, Pack;
    ArpFieldMasks(s3.data, s2.data, s1.data, s0.data);
    PackLanes(0, 0, H3(s3.data), H0(s2.data), H1(s2.data));
    PackLanes(0, 0, 0, H2(s2.data), H3(s2.data));
    PackLanes(0, 0, 0, H3(s1.data), H0(s0.data));
  }

  /** The tests of the dispatch: operation, sender and target address. */
  lemma DispatchMasks(s3: bv64, s2: bv64, s1: bv64, s0: bv64)
    ensures (s3 >> 16) & 0x00000000000000FF == 0x01 <==> H2(s3) & 0x00FF == 0x0001
    ensures s2 & 0x00000000FFFFFFFF == 0x00000000C0A80201 <==> H2(s2) == 0xC0A8 && H3(s2) == 0x0201
    ensures var target := ((s1 << 16) & 0x00000000FFFF0000) | ((s0 >> 48) & 0x000000000000FFFF);
            && (target == 0x00000000C0A80264 <==> H3(s1) == 0xC0A8 && H0(s0) == 0x0264)
            && (target == 0x00000000C0A80201 <==> H3(s1) == 0xC0A8 && H0(s0) == 0x0201)
  {
  }

  lemma SameAddress(hi: bv16, lo: bv16)
    ensures Int(hi) == 0xC0A8 && Int(lo) == 0x0264 <==> hi == 0xC0A8 && lo == 0x0264
    ensures Int(hi) == 0xC0A8 && Int(lo) == 0x0201 <==> hi == 0xC0A8 && lo == 0x0201
  {
    ArpConstants();
    hide Int;
    SameLane(hi, 0xC0A8); SameLane(lo, 0x0264); SameLane(lo, 0x0201);
  }

  /** The dispatch on the six-word window: a request for 192.168.2.100, and an announcement of 192.168.2.1. */
  lemma DispatchIs(s5: Reg, s4: Reg, s3: Reg, s2: Reg, s1: Reg, s0: Reg)
    ensures var window := [s5.Read(), s4.Read(), s3.Read(), s2.Read(), s1.Read(), s0.Read()];
            var op := (s3.data >> 16) & 0x00000000000000FF;
            var source := s2.data & 0x00000000FFFFFFFF;
            var target := ((s1.data << 16) & 0x00000000FFFF0000) | ((s0.data >> 48) & 0x000000000000FFFF);
            && (AsksOwn(window, 5) <==> s5.sop != 0 && op == 0x01 && target == 0x00000000C0A80264)
            && (Announces(window, 5) <==>
                  s5.sop != 0 && source == 0x00000000C0A80201 && (op == 0x01 ==> target == 0x00000000C0A80201))
  {
    hide Int, H0, H1, H2, H3;
    DispatchMasks(s3.data, s2.data, s1.data, s0.data);
    LowByte(H2(s3.data));
    RouteConstants();
    SameLane(H2(s3.data) & 0x00FF, 0x0001);
    SameAddress(H2(s2.data), H3(s2.data));
    SameAddress(H3(s1.data), H0(s0.data));
  }

  lemma ArpWordMasks(m0: bv16, m1: bv16, m2: bv16, ip1: bv16, ip0: bv16)
    ensures 0x0000000000000600 | (Pack(0, m0, m1, m2) << 16) == Pack(m0, m1, m2, 0x0600)
    ensures (Pack(0, m0, m1, m2) << 16) | ((Pack(0, 0, ip1, ip0) >> 16) & 0x000000000000FFFF) == Pack(m0, m1, m2, ip1)
    ensures (Pack(0, 0, ip1, ip0) << 48) & 0xFFFF000000000000 == Pack(ip0, 0, 0, 0)
  {
  }

  lemma ArpTable()
    ensures 0x0000000008060001 == Pack(0, 0, 0x0806, 0x0001)
    ensures 0x0800060400000600 | 0x0000000000010000 == Pack(0x0800, 0x0604, 0x0001, 0x0600)
    ensures 0x0800060400000600 | 0x0000000000020000 == Pack(0x0800, 0x0604, 0x0002, 0x0600)
    ensures 0x00000000C0A80264 == Pack(0, 0, 0xC0A8, 0x0264)
    ensures 0x00000000C0A80201 == Pack(0, 0, 0xC0A8, 0x0201)
    ensures 0x0000FFFFFFFFFFFF == Pack(0, 0xFFFF, 0xFFFF, 0xFFFF)
  {
  }

  lemma ArpConstants()
    ensures Int(0x0600) == 0x0600 && Int(0xC0A8) == 0xC0A8 && Int(0) == 0 && Int(0x0264) == 0x0264
    ensures Int(0x0201) == 0x0201 && Int(0x0806) == 0x0806 && Int(0x0001) == 0x0001 && Int(0x0002) == 0x0002
    ensures Int(0x0800) == 0x0800 && Int(0x0604) == 0x0604 && Int(0xFFFF) == 0xFFFF
  {
  }

  lemma TableWords()
    ensures WordOf(0x0000000008060001, 0, 0, 0) == Lanes(0, 0, 0x0806, 0x0001)
    ensures WordOf(0x0800060400000600 | 0x0000000000010000, 0, 0, 0) == Lanes(0x0800, 0x0604, 0x0001, 0x0600)
    ensures WordOf(0x0800060400000600 | 0x0000000000020000, 0, 0, 0) == Lanes(0x0800, 0x0604, 0x0002, 0x0600)
    ensures WordOf(0x00000000C0A80264, 0, 0, 0) == Lanes(0, 0, 0xC0A8, 0x0264)
  {
    ArpTable();
    hide Int, H0, H1, H2, H3, Pack;
    ArpConstants();
    ReadPack(0, 0, 0x0806, 0x0001, 0, 0, 0);
    ReadPack(0x0800, 0x0604, 0x0001, 0x0600, 0, 0, 0);
    ReadPack(0x0800, 0x0604, 0x0002, 0x0600, 0, 0, 0);
    ReadPack(0, 0, 0xC0A8, 0x0264, 0, 0, 0);
  }

  /** The three words filled in from a hardware address of lanes m0, m1, m2 and a protocol address of lanes ip1,
      ip0; word 4 always takes the gateway's upper half. */
  lemma FilledWords(m0: bv16, m1: bv16, m2: bv16, ip1: bv16, ip0: bv16)
    ensures var mac, ip := Pack(0, m0, m1, m2), Pack(0, 0, ip1, ip0);
            var gtw: bv64 := 0x00000000C0A80201;
            && WordOf(0x0000000000000600 | (mac << 16), 1, 0, 0) == Lanes(Int(m0), Int(m1), Int(m2), 0x0600).(sop := 1)
            && WordOf((mac << 16) | ((gtw >> 16) & 0x000000000000FFFF), 0, 0, 0)
                 == Lanes(Int(m0), Int(m1), Int(m2), 0xC0A8)
            && WordOf((ip << 48) & 0xFFFF000000000000, 0, 1, 6)
                 == Lanes(Int(ip0), 0, 0, 0).(eop := 1, empty := 6)
  {
    ArpTable();
    hide Int, H0, H1, H2, H3, Pack;
    ArpConstants();
    ArpWordMasks(m0, m1, m2, 0xC0A8, 0x0201);
    ArpWordMasks(m0, m1, m2, ip1, ip0);
    ReadPack(m0, m1, m2, 0x0600, 1, 0, 0);
    ReadPack(m0, m1, m2, 0xC0A8, 0, 0, 0);
    ReadPack(ip0, 0, 0, 0, 0, 1, 6);
  }

  /** The six words of a reply, for rpy_mac of lanes m0, m1, m2 and rpy_ip of lanes ip1, ip0. */
  lemma ReplyWordsAre(m0: bv16, m1: bv16, m2: bv16, ip1: bv16, ip0: bv16)
    ensures var peer := Peer(Mac(Int(m0), Int(m1), Int(m2)), Ip(Int(ip1), Int(ip0)));
            var mac, ip := Pack(0, m0, m1, m2), Pack(0, 0, ip1, ip0);
            var gtw: bv64 := 0x00000000C0A80201;
            && WordOf(0x0000000000000600 | (mac << 16), 1, 0, 0) == ReplyWord(0, peer)
            && WordOf(0x0000000008060001, 0, 0, 0) == ReplyWord(1, peer)
            && WordOf(0x0800060400000600 | 0x0000000000020000, 0, 0, 0) == ReplyWord(2, peer)
            && WordOf(0x00000000C0A80264, 0, 0, 0) == ReplyWord(3, peer)
            && WordOf((mac << 16) | ((gtw >> 16) & 0x000000000000FFFF), 0, 0, 0) == ReplyWord(4, peer)
            && WordOf((ip << 48) & 0xFFFF000000000000, 0, 1, 6) == ReplyWord(5, peer)
  {
    hide Int, WordOf, Pack;
    TableWords();
    FilledWords(m0, m1, m2, ip1, ip0);
  }

  /** The six words of a request. */
  lemma RequestWordsAre()
    ensures var bcast: bv64, gtw: bv64 := 0x0000FFFFFFFFFFFF, 0x00000000C0A80201;
            && WordOf(0x0000000000000600 | (bcast << 16), 1, 0, 0) == RequestWord(0)
            && WordOf(0x0000000008060001, 0, 0, 0) == RequestWord(1)
            && WordOf(0x0800060400000600 | 0x0000000000010000, 0, 0, 0) == RequestWord(2)
            && WordOf(0x00000000C0A80264, 0, 0, 0) == RequestWord(3)
            && WordOf((bcast << 16) | ((gtw >> 16) & 0x000000000000FFFF), 0, 0, 0) == RequestWord(4)
            && WordOf((gtw << 48) & 0xFFFF000000000000, 0, 1, 6) == RequestWord(5)
  {
    hide Int, WordOf, Pack;
    ArpConstants();
    TableWords();
    ArpTable();
    FilledWords(0xFFFF, 0xFFFF, 0xFFFF, 0xC0A8, 0x0201);
  }
}
