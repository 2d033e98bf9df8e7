/** The circular buffers of the JTAG UART driver: one slot always stays free, `inn` is written by the
    producer only and `out` by the consumer only. */
module Ring {
  import opened Basics

  const BUF_LEN := 2048

  type Index = i: int | 0 <= i < BUF_LEN

  function Next(i: Index): Index { (i + 1) % BUF_LEN }

  /** Advance by `n` slots. */
  function Forward(i: Index, n: nat): Index { (i + n) % BUF_LEN }

  /** The live bytes, oldest first. */
  function Live(b: seq<Octet>, out: Index, inn: Index): seq<Octet>
    requires |b| == BUF_LEN
  {
    if out <= inn then b[out..inn] else b[out..] + b[..inn]
  }

  /** Slot `i` holds a live byte. */
  predicate Held(out: Index, inn: Index, i: Index) {
    if out <= inn then out <= i < inn else out <= i || i < inn
  }

  predicate Full(out: Index, inn: Index) { Next(inn) == out }

  lemma LiveBound(b: seq<Octet>, out: Index, inn: Index)
    requires |b| == BUF_LEN
    ensures |Live(b, out, inn)| <= BUF_LEN - 1
    ensures Full(out, inn) <==> |Live(b, out, inn)| == BUF_LEN - 1
    ensures out == inn <==> Live(b, out, inn) == []
  {
  }

  /** The producer stores one byte and advances. */
  lemma Put(b: seq<Octet>, out: Index, inn: Index, x: Octet)
    requires |b| == BUF_LEN && !Full(out, inn)
    ensures Live(b[inn := x], out, Next(inn)) == Live(b, out, inn) + [x]
  {
    var c := b[inn := x];
    if out <= inn {
      assert c[out..inn + 1] == b[out..inn] + [x];
      if inn == BUF_LEN - 1 { assert c[out..] == c[out..inn + 1] && Next(inn) == 0; }
    } else {
      assert c[..inn + 1] == b[..inn] + [x] && c[out..] == b[out..];
    }
  }

  /** The consumer takes the oldest byte. */
  lemma Take(b: seq<Octet>, out: Index, inn: Index)
    requires |b| == BUF_LEN && out != inn
    ensures Live(b, out, inn) == [b[out]] + Live(b, Next(out), inn)
  {
    LiveBound(b, out, inn);
    Release(b, out, inn, 1);
    hide Live;
    var l := Live(b, out, inn);
    assert l == l[..1] + l[1..] && b[out..out + 1] == [b[out]];
  }

  /** Writing a slot that is not live is invisible. */
  lemma Outside(b: seq<Octet>, out: Index, inn: Index, i: Index, x: Octet)
    requires |b| == BUF_LEN && !Held(out, inn, i)
    ensures Live(b[i := x], out, inn) == Live(b, out, inn)
  {
  }

  /** A slot of the free stretch that starts at `inn` is not live. */
  lemma FreeSlot(b: seq<Octet>, out: Index, inn: Index, j: nat)
    requires |b| == BUF_LEN && inn + j < BUF_LEN && j < BUF_LEN - 1 - |Live(b, out, inn)|
    ensures !Held(out, inn, inn + j)
  {
  }

  /** Publishing `n` stored bytes at once. */
  lemma Extend(b: seq<Octet>, out: Index, inn: Index, n: nat)
    requires |b| == BUF_LEN && inn + n <= BUF_LEN && n <= BUF_LEN - 1 - |Live(b, out, inn)|
    ensures Live(b, out, Forward(inn, n)) == Live(b, out, inn) + b[inn..inn + n]
  {
    if n == 0 {
      Stay(inn);
      assert b[inn..inn + 0] == [];
      hide *;
      assert Live(b, out, inn) + [] == Live(b, out, inn);
    } else if inn + n == BUF_LEN {
      ExtendToEnd(b, out, inn, n);
    } else if out <= inn {
      ExtendAhead(b, out, inn, n);
    } else {
      ExtendBehind(b, out, inn, n);
    }
  }

  lemma Stay(i: Index)
    ensures Forward(i, 0) == i
  {
  }

  lemma Join(b: seq<Octet>, i: nat, j: nat, k: nat)
    requires i <= j <= k <= |b|
    ensures b[i..j] + b[j..k] == b[i..k]
  {
  }

  lemma ExtendToEnd(b: seq<Octet>, out: Index, inn: Index, n: nat)
    requires |b| == BUF_LEN && 0 < n && inn + n == BUF_LEN && n <= BUF_LEN - 1 - |Live(b, out, inn)|
    ensures Live(b, out, Forward(inn, n)) == Live(b, out, inn) + b[inn..inn + n]
  {
    assert Forward(inn, n) == 0 && 0 < out <= inn;
    assert Live(b, out, 0) == b[out..BUF_LEN] && Live(b, out, inn) == b[out..inn];
    hide *;
    Join(b, out, inn, BUF_LEN);
  }

  lemma ExtendAhead(b: seq<Octet>, out: Index, inn: Index, n: nat)
    requires |b| == BUF_LEN && inn + n < BUF_LEN && out <= inn
    ensures Live(b, out, Forward(inn, n)) == Live(b, out, inn) + b[inn..inn + n]
  {
    assert Forward(inn, n) == inn + n;
    assert Live(b, out, inn + n) == b[out..inn + n] && Live(b, out, inn) == b[out..inn];
    hide *;
    Join(b, out, inn, inn + n);
  }

  lemma ExtendBehind(b: seq<Octet>, out: Index, inn: Index, n: nat)
    requires |b| == BUF_LEN && inn + n < BUF_LEN && inn < out && n <= BUF_LEN - 1 - |Live(b, out, inn)|
    ensures Live(b, out, Forward(inn, n)) == Live(b, out, inn) + b[inn..inn + n]
  {
    assert Forward(inn, n) == inn + n < out;
    assert Live(b, out, inn + n) == b[out..] + b[0..inn + n] && Live(b, out, inn) == b[out..] + b[0..inn];
    hide *;
    Join(b, 0, inn, inn + n);
    Regroup(b[out..], b[0..inn], b[inn..inn + n]);
  }

  lemma Regroup(x: seq<Octet>, y: seq<Octet>, z: seq<Octet>)
    ensures (x + y) + z == x + (y + z)
  {
  }

  /** Releasing the `n` oldest bytes at once; they lie in one stretch. */
  lemma Release(b: seq<Octet>, out: Index, inn: Index, n: nat)
    requires |b| == BUF_LEN && out + n <= BUF_LEN && n <= |Live(b, out, inn)|
    ensures Live(b, out, inn)[..n] == b[out..out + n]
    ensures Live(b, Forward(out, n), inn) == Live(b, out, inn)[n..]
  {
    if out + n == BUF_LEN {
      assert Forward(out, n) == 0;
    } else {
      assert Forward(out, n) == out + n;
    }
  }

  /** The space computation of the producer: contiguous free slots, one always kept. */
  function Room(out: Index, inn: Index): nat {
    if inn < out then out - 1 - inn else if out > 0 then BUF_LEN - inn else BUF_LEN - 1 - inn
  }

  lemma RoomIs(b: seq<Octet>, out: Index, inn: Index)
    requires |b| == BUF_LEN
    ensures inn + Room(out, inn) <= BUF_LEN && Room(out, inn) <= BUF_LEN - 1 - |Live(b, out, inn)|
    ensures Room(out, inn) == 0 <==> Full(out, inn)
  {
  }

  /** The data computation of the consumer: contiguous live bytes. */
  function Run(out: Index, inn: Index): nat { if inn >= out then inn - out else BUF_LEN - out }

  lemma RunIs(b: seq<Octet>, out: Index, inn: Index)
    requires |b| == BUF_LEN
    ensures out + Run(out, inn) <= BUF_LEN && Run(out, inn) <= |Live(b, out, inn)|
    ensures Run(out, inn) == 0 <==> out == inn
  {
  }
}
