/** The Internet checksum of RFC 1071 over 16-bit lanes, and the two ways the components compute it. */
module OnesComplement {
  import opened Basics
  import opened Words
  import opened IcmpSpec

  /** One's-complement addition: the carry out of bit 15 is added back in. */
  function Add(a: Half, b: Half): Half {
    if a + b > 0xFFFF then a + b - 0xFFFF else a + b
  }

  function OnesSum(s: seq<Half>): Half {
    if s == [] then 0 else Add(OnesSum(s[..|s| - 1]), s[|s| - 1])
  }

  /** The value of the checksum field for data `s`. */
  function Checksum(s: seq<Half>): Half { 0xFFFF - OnesSum(s) }

  /** Data that includes its checksum is accepted when the sum is all ones. */
  predicate Verifies(s: seq<Half>) { OnesSum(s) == 0xFFFF }

  function Total(s: seq<Half>): nat {
    if s == [] then 0 else Total(s[..|s| - 1]) + s[|s| - 1]
  }

  /** The representative in 1..65535, or 0 for an all-zero input. */
  function Reduce(t: nat): Half { if t == 0 then 0 else 1 + (t - 1) % 0xFFFF }

  lemma ReduceAdd(t: nat, x: Half)
    ensures Add(Reduce(t), x) == Reduce(t + x)
  {
    if t > 0 {
      var q, r := (t - 1) / 0xFFFF, (t - 1) % 0xFFFF;
      assert t - 1 == q * 0xFFFF + r;
      if r + 1 + x > 0xFFFF {
        assert t + x - 1 == (q + 1) * 0xFFFF + (r + x - 0xFFFF);
      } else {
        assert t + x - 1 == q * 0xFFFF + (r + x);
      }
    }
  }

  /** Adding carries back one at a time equals reducing the plain sum: the order is irrelevant. */
  lemma {:induction false} OnesSumIs(s: seq<Half>)
    ensures OnesSum(s) == Reduce(Total(s))
  {
    if s != [] {
      OnesSumIs(s[..|s| - 1]);
      ReduceAdd(Total(s[..|s| - 1]), s[|s| - 1]);
    }
  }

  lemma {:induction false} TotalAppend(s: seq<Half>, t: seq<Half>)
    ensures Total(s + t) == Total(s) + Total(t)
    decreases |t|
  {
    if t == [] {
      assert s + t == s;
    } else {
      TotalAppend(s, t[..|t| - 1]);
      assert (s + t)[..|s + t| - 1] == s + t[..|t| - 1];
    }
  }

  lemma TotalCons(x: Half, t: seq<Half>)
    ensures Total([x] + t) == x + Total(t)
  {
    TotalAppend([x], t);
    assert [x][..0] == [];
  }

  lemma ReduceShift(t: nat, c: nat)
    requires t > 0
    ensures Reduce(t + c * 0xFFFF) == Reduce(t)
  {
    assert t + c * 0xFFFF - 1 == (t - 1) + c * 0xFFFF;
  }

  // ---------- header checksum: one fold ----------

  lemma OneFold(t: nat)
    ensures FoldOnce(t) == t % 0x1_0000 + t / 0x1_0000
    ensures SumField(FoldOnce(t)) == 0xFFFF - (t + t / 0x1_0000) % 0x1_0000
  {
    assert t == (t / 0x1_0000) * 0x1_0000 + t % 0x1_0000;
    ModShift(t / 0x1_0000, t % 0x1_0000 + t / 0x1_0000);
  }

  lemma ModShift(k: nat, x: nat)
    ensures (k * 0x1_0000 + x) % 0x1_0000 == x % 0x1_0000
  {
  }

  /** What one fold leaves of a sum of at most 256 lanes. */
  lemma FoldArith(t: nat)
    requires t <= 0x100 * 0xFFFF
    ensures var f := FoldOnce(t);
            f <= 0xFFFF + 0xFF && Reduce(t) == if f <= 0xFFFF then f else f - 0xFFFF
  {
    var hi, lo := t / 0x1_0000, t % 0x1_0000;
    var f := hi + lo;
    assert t == hi * 0x1_0000 + lo;
    assert hi <= 0xFF;
    assert t == f + hi * 0xFFFF;
    if f > 0 { ReduceShift(f, hi); }
  }

  lemma FieldArith(t: nat)
    requires t <= 0x100 * 0xFFFF
    ensures var f := FoldOnce(t);
            Reduce(t + SumField(f)) == 0xFFFF <==> f <= 0xFFFF
  {
    FoldArith(t);
    var f := FoldOnce(t);
    ReduceAdd(t, SumField(f));
  }

  /** The header component folds once.  That is the RFC 1071 checksum when the folded value fits 16
      bits, and one more than it in every other case. */
  lemma FoldOnceIs(s: seq<Half>)
    requires |s| <= 0x100
    ensures var f := Total(s) % 0x1_0000 + Total(s) / 0x1_0000;
            SumField(FoldOnce(Total(s))) == if f <= 0xFFFF then Checksum(s) else Checksum(s) + 1
  {
    hide OnesSum, Total, Reduce, FoldOnce;
    OnesSumIs(s);
    TotalBound(s);
    OneFold(Total(s));
    FoldArith(Total(s));
  }

  lemma {:induction false} TotalBound(s: seq<Half>)
    ensures Total(s) <= |s| * 0xFFFF
  {
    if s != [] { TotalBound(s[..|s| - 1]); }
  }

  /** A header with that field in place is accepted exactly when the fold needed no second carry. */
  lemma FoldOnceVerifies(before: seq<Half>, after: seq<Half>)
    requires |before| + |after| <= 0x100
    ensures var t := Total(before + after);
            Verifies(before + [SumField(FoldOnce(t))] + after) <==> t % 0x1_0000 + t / 0x1_0000 <= 0xFFFF
  {
    hide *;
    TotalWith(before, SumField(FoldOnce(Total(before + after))), after);
    TotalBound(before + after);
    OneFold(Total(before + after));
    FieldArith(Total(before + after));
    VerifiesIs(before + [SumField(FoldOnce(Total(before + after)))] + after);
  }

  lemma TotalWith(before: seq<Half>, field: Half, after: seq<Half>)
    ensures Total(before + [field] + after) == Total(before + after) + field
  {
    hide Total;
    TotalAppend(before, after);
    TotalAppend(before, [field] + after);
    TotalCons(field, after);
    assert before + [field] + after == before + ([field] + after);
  }

  lemma VerifiesIs(s: seq<Half>)
    ensures Verifies(s) <==> Reduce(Total(s)) == 0xFFFF
  {
    OnesSumIs(s);
  }

  // ---------- ICMP checksum: the incremental update ----------

  /** The complement-borrow-complement sequence is one's-complement addition of 0x0800 (RFC 1624,
      section 3), and never yields the all-zero field. */
  lemma UpdateSumIs(c: Half)
    ensures UpdateSum(c) == Add(c, 0x0800)
    ensures UpdateSum(c) != 0
  {
  }

  /** What param does to an ICMP message: type cleared, code kept, checksum adjusted. */
  function Answer(m: seq<Half>): (r: seq<Half>)
    requires |m| >= 2
  {
    [m[0] % 0x100, UpdateSum(m[1])] + m[2..]
  }

  lemma TotalTwo(x: Half, y: Half, t: seq<Half>)
    ensures Total([x, y] + t) == x + y + Total(t)
  {
    hide Total;
    TotalCons(y, t);
    TotalCons(x, [y] + t);
    assert [x, y] + t == [x] + ([y] + t);
  }

  lemma AnswerTotal(m: seq<Half>)
    requires |m| >= 2
    ensures Total(m) == m[0] + m[1] + Total(m[2..])
    ensures Total(Answer(m)) == m[0] % 0x100 + UpdateSum(m[1]) + Total(m[2..])
  {
    hide Total;
    TotalTwo(m[0], m[1], m[2..]);
    assert m == [m[0], m[1]] + m[2..];
    TotalTwo(m[0] % 0x100, UpdateSum(m[1]), m[2..]);
  }

  /** For an echo request of any length the answer has the very same one's-complement sum, so it is
      accepted exactly when the request is. */
  lemma AnswerKeepsSum(m: seq<Half>)
    requires |m| >= 2 && m[0] / 0x100 == 8
    ensures OnesSum(Answer(m)) == OnesSum(m)
  {
    hide *;
    AnswerTotal(m);
    OnesSumIs(m);
    OnesSumIs(Answer(m));
    SameReduced(m[0], m[1], Total(m[2..]));
  }

  lemma SameReduced(head: Half, field: Half, rest: nat)
    requires head / 0x100 == 8
    ensures Reduce(head + field + rest) == Reduce(head % 0x100 + UpdateSum(field) + rest)
  {
    hide UpdateSum, Reduce;
    assert head == 0x0800 + head % 0x100;
    UpdateSumIs(field);
    var t := head % 0x100 + UpdateSum(field) + rest;
    if field > 0xF7FF {
      assert head + field + rest == t + 1 * 0xFFFF;
      ReduceShift(t, 1);
    }
  }

  /** The component never tests the type: on an accepted message the answer is accepted if and only
      if the message was an echo request. */
  lemma AnswerVerifiesIff(m: seq<Half>)
    requires |m| >= 2 && Verifies(m)
    ensures Verifies(Answer(m)) <==> m[0] / 0x100 == 8
  {
    if m[0] / 0x100 == 8 {
      AnswerKeepsSum(m);
    } else {
      AnswerTotal(m);
      OnesSumIs(m);
      OnesSumIs(Answer(m));
      UpdateSumIs(m[1]);
      var t, u := Total(m), Total(Answer(m));
      var k: int := m[0] / 0x100;
      assert (t - 1) % 0xFFFF == 0xFFFE;
      var d: int := 0x0800 - 0x100 * k;
      assert u == t + d || u == t + d - 0xFFFF;
      Displaced(t, u, d);
    }
  }

  lemma Displaced(t: nat, u: nat, d: int)
    requires t > 0 && u > 0 && (t - 1) % 0xFFFF == 0xFFFE
    requires -0xFFFF < d < 0xFFFF && d != 0
    requires u == t + d || u == t + d - 0xFFFF
    ensures (u - 1) % 0xFFFF != 0xFFFE
  {
    var a := (t - 1) / 0xFFFF;
    assert t == (a + 1) * 0xFFFF;
    var b := if u == t + d then a + 1 else a;
    assert u - 1 == b * 0xFFFF + (d - 1);
    if d > 0 {
      assert (u - 1) % 0xFFFF == d - 1;
    } else {
      assert u - 1 == (b - 1) * 0xFFFF + (d - 1 + 0xFFFF);
      assert (u - 1) % 0xFFFF == d - 1 + 0xFFFF;
    }
  }

  /** Against a full recomputation over the answer with a zero field: the same value, except that
      the incremental form writes all ones where recomputation would write zero. */
  lemma AnswerIsRecomputation(m: seq<Half>)
    requires |m| >= 2 && Verifies(m) && m[0] / 0x100 == 8
    ensures var full := Checksum([m[0] % 0x100, 0] + m[2..]);
            Answer(m)[1] == if full == 0 then 0xFFFF else full
  {
    AnswerKeepsSum(m);
    var z := [m[0] % 0x100, 0] + m[2..];
    var field := Answer(m)[1];
    assert field == UpdateSum(m[1]);
    hide UpdateSum, OnesSum, Total, Reduce, Answer;
    TotalTwo(m[0] % 0x100, 0, m[2..]);
    AnswerTotal(m);
    OnesSumIs(z);
    OnesSumIs(Answer(m));
    UpdateSumIs(m[1]);
    Completes(Total(z), field);
  }

  /** The field that completes a sum to all ones. */
  lemma Completes(t: nat, field: Half)
    requires field != 0 && Reduce(t + field) == 0xFFFF
    ensures field == if Reduce(t) == 0xFFFF then 0xFFFF else 0xFFFF - Reduce(t)
  {
    ReduceAdd(t, field);
    hide Reduce;
  }
}
