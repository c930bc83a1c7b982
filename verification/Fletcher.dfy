/**
 * The running checksum of the Pilot BIOS link: the 8-bit Fletcher sum of RFC 1145,
 * kept in HL and updated one byte at a time.
 */
module Fletcher {
  import opened Bytes

  /** HL: `a` (register H) sums the bytes, `b` (register L) sums the values of `a`. */
  datatype Sum = Sum(a: byte, b: byte)

  /** One's complement addition of two bytes. */
  function EndAround(x: byte, y: byte): byte {
    if x + y < 0x100 then x + y else x + y - 0xFF
  }

  function Add(s: Sum, d: byte): Sum {
    var a := EndAround(d, s.a);
    Sum(a, EndAround(a, s.b))
  }

  /** The checksum of a whole sequence, starting from zero. */
  function Checksum(data: seq<byte>): Sum {
    if data == [] then Sum(0, 0)
    else Add(Checksum(data[..|data| - 1]), data[|data| - 1])
  }

  /** The checksum as the link transmits it: the word HL, low byte first. */
  function Trailer(data: seq<byte>): seq<byte>
  {
    [Checksum(data).b, Checksum(data).a]
  }

  lemma ChecksumExtends(data: seq<byte>, d: byte)
    ensures Checksum(data + [d]) == Add(Checksum(data), d)
  {
    assert (data + [d])[..|data|] == data;
  }

  /** `add a, x`: the sum modulo 256 and the carry. */
  function AddByte(a: byte, x: byte): (byte, byte) {
    ((a + x) % 0x100, (a + x) / 0x100)
  }

  /** `_PB_Checksum`, register by register. The final `adc a, 0` never carries again. */
  method Update(hl: Sum, value: byte) returns (r: Sum)
    ensures r == Add(hl, value)
  {
    var h, l := hl.a, hl.b;
    var first := AddByte(value, h);
    assert first.0 + first.1 < 0x100;  // adc a, 0
    h := first.0 + first.1;
    var second := AddByte(h, l);
    assert second.0 + second.1 < 0x100;
    l := second.0 + second.1;
    r := Sum(h, l);
  }

  // ----- the closed form -----

  function Total(data: seq<byte>): nat {
    if data == [] then 0 else data[0] + Total(data[1..])
  }

  /** Every byte weighted by the number of bytes from it to the end, itself included. */
  function Weighted(data: seq<byte>): nat {
    if data == [] then 0 else |data| * data[0] + Weighted(data[1..])
  }

  /** The one's complement representative of n: 0 stands only for 0 itself. */
  function Fold(n: nat): byte {
    if n == 0 then 0 else 1 + (n - 1) % 0xFF
  }

  lemma FoldSplit(n: nat)
    requires n > 0
    ensures n == 0xFF * ((n - 1) / 0xFF) + Fold(n) && 1 <= Fold(n)
  {
  }

  lemma FoldIs(n: nat, q: int, r: byte)
    requires n > 0 && r > 0 && n == 0xFF * q + r
    ensures Fold(n) == r
  {
  }

  lemma FoldAdds(m: nat, n: nat)
    ensures EndAround(Fold(m), Fold(n)) == Fold(m + n)
  {
    if m > 0 && n > 0 {
      hide Fold;
      FoldSplit(m);
      FoldSplit(n);
      var q, r := (m - 1) / 0xFF + (n - 1) / 0xFF, Fold(m) + Fold(n);
      if r <= 0xFF {
        FoldIs(m + n, q, r);
      } else {
        FoldIs(m + n, q + 1, r - 0xFF);
      }
    }
  }

  lemma AddFolded(t: nat, w: nat, d: byte)
    ensures Add(Sum(Fold(t), Fold(w)), d) == Sum(Fold(t + d), Fold(w + t + d))
  {
    assert Fold(d) == d;
    FoldAdds(d, t);
    FoldAdds(t + d, w);
  }

  /** Moving a sum from one byte value to another that differs modulo 255 changes its fold. */
  lemma FoldMoves(rest: nat, x: byte, y: byte)
    requires x % 0xFF != y % 0xFF
    ensures Fold(rest + x) != Fold(rest + y)
  {
    FoldEqual(rest + x, rest + y);
  }

  lemma FoldEqual(m: nat, n: nat)
    ensures Fold(m) == Fold(n) <==> m % 0xFF == n % 0xFF && (m == 0 <==> n == 0)
  {
    FoldResidue(m);
    FoldResidue(n);
    hide Fold;
  }

  lemma FoldResidue(n: nat)
    ensures n == 0 <==> Fold(n) == 0
    ensures n % 0xFF == Fold(n) % 0xFF
  {
    if n > 0 {
      FoldSplit(n);
      var q, f := (n - 1) / 0xFF, Fold(n) as int;
      hide Fold;
      assert n == 0xFF * q + f;
    }
  }

  lemma {:induction false} SumsExtend(data: seq<byte>, d: byte)
    ensures Total(data + [d]) == Total(data) + d
    ensures Weighted(data + [d]) == Weighted(data) + Total(data) + d
  {
    if data == [] {
      assert data + [d] == [d];
      assert [d][1..] == [];
    } else {
      assert (data + [d])[1..] == data[1..] + [d];
      SumsExtend(data[1..], d);
      assert (|data| + 1) * data[0] == |data| * data[0] + data[0];
    }
  }

  /** The checksum is a function of the plain and the weighted sum alone. */
  lemma {:induction false} ClosedForm(data: seq<byte>)
    ensures Checksum(data) == Sum(Fold(Total(data)), Fold(Weighted(data)))
  {
    if data == [] {
    } else {
      var front, d := data[..|data| - 1], data[|data| - 1];
      assert data == front + [d];
      ClosedForm(front);
      SumsExtend(front, d);
      AddFolded(Total(front), Weighted(front), d);
    }
  }

  /** Two byte strings collide exactly when both sums agree modulo 255 and vanish together. */
  lemma Collision(s: seq<byte>, t: seq<byte>)
    ensures Checksum(s) == Checksum(t) <==>
      && Total(s) % 0xFF == Total(t) % 0xFF && (Total(s) == 0 <==> Total(t) == 0)
      && Weighted(s) % 0xFF == Weighted(t) % 0xFF && (Weighted(s) == 0 <==> Weighted(t) == 0)
  {
    ClosedForm(s);
    ClosedForm(t);
    FoldEqual(Total(s), Total(t));
    FoldEqual(Weighted(s), Weighted(t));
  }

  /** A half of the checksum is zero only while every byte so far was zero. */
  lemma {:induction false} ZeroOnlyForZeros(data: seq<byte>)
    ensures Checksum(data).a == 0 <==> forall i :: 0 <= i < |data| ==> data[i] == 0
    ensures Checksum(data).b == 0 <==> forall i :: 0 <= i < |data| ==> data[i] == 0
  {
    if data == [] {
    } else {
      ZeroOnlyForZeros(data[..|data| - 1]);
    }
  }

  // ----- what the checksum detects -----

  lemma {:induction false} ReplaceTotal(data: seq<byte>, i: nat, x: byte)
    requires i < |data|
    ensures Total(data[i := x]) == Total(data) - data[i] + x
  {
    if i == 0 {
      assert data[i := x][1..] == data[1..];
    } else {
      assert data[i := x][1..] == data[1..][i - 1 := x];
      ReplaceTotal(data[1..], i - 1, x);
    }
  }

  lemma {:induction false} TotalAtLeast(data: seq<byte>, i: nat)
    requires i < |data|
    ensures data[i] <= Total(data)
  {
    if i == 0 {
    } else {
      TotalAtLeast(data[1..], i - 1);
    }
  }

  lemma {:induction false} WeightedAtLeast(data: seq<byte>, i: nat)
    requires i < |data|
    ensures data[i] <= Weighted(data)
  {
    if i == 0 {
    } else {
      WeightedAtLeast(data[1..], i - 1);
    }
  }

  lemma ReplacementDetected(data: seq<byte>, i: nat, x: byte)
    requires i < |data| && x % 0xFF != data[i] % 0xFF
    ensures Checksum(data[i := x]).a != Checksum(data).a
  {
    hide Checksum, Total, Weighted, Fold;
    ClosedForm(data);
    ClosedForm(data[i := x]);
    ReplaceTotal(data, i, x);
    TotalAtLeast(data, i);
    FoldMoves(Total(data) - data[i], data[i], x);
  }

  function Swap(data: seq<byte>, i: nat): seq<byte>
    requires i + 1 < |data|
  {
    data[i := data[i + 1]][i + 1 := data[i]]
  }

  lemma {:induction false} SwapWeighted(data: seq<byte>, i: nat)
    requires i + 1 < |data|
    ensures Weighted(Swap(data, i)) == Weighted(data) - data[i] + data[i + 1]
  {
    var t := Swap(data, i);
    if i == 0 {
      var n, x, y := |data|, data[0], data[1];
      assert t[1..][1..] == data[1..][1..];
      assert t[1..][0] == x && data[1..][0] == y;
      assert Weighted(t) == n * y + ((n - 1) * x + Weighted(data[1..][1..]));
      assert Weighted(data) == n * x + ((n - 1) * y + Weighted(data[1..][1..]));
      SwappedWeights(n, x, y);
    } else {
      assert t[1..] == Swap(data[1..], i - 1);
      SwapWeighted(data[1..], i - 1);
    }
  }

  lemma SwappedWeights(n: int, x: int, y: int)
    ensures n * y + (n - 1) * x == n * x + (n - 1) * y - x + y
  {
  }

  lemma SwapDetected(data: seq<byte>, i: nat)
    requires i + 1 < |data| && data[i] % 0xFF != data[i + 1] % 0xFF
    ensures Checksum(Swap(data, i)).b != Checksum(data).b
  {
    hide Checksum, Total, Weighted, Fold, Swap;
    ClosedForm(data);
    ClosedForm(Swap(data, i));
    SwapWeighted(data, i);
    WeightedAtLeast(data, i);
    FoldMoves(Weighted(data) - data[i], data[i], data[i + 1]);
  }
}
