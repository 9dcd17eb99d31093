/** Little-endian integers and fixed-width framing, both ways. */
module Bytes {

  type Byte = b: nat | b < 256

  function Pow256(width: nat): (p: nat)
    ensures p >= 1
  {
    if width == 0 then 1 else 256 * Pow256(width - 1)
  }

  lemma {:induction false} Pow256Monotone(a: nat, b: nat)
    requires a <= b
    ensures Pow256(a) <= Pow256(b)
    decreases b
  {
    if a < b {
      Pow256Monotone(a, b - 1);
    }
  }

  /** Unsigned integers by byte width. */
  type U16 = n: nat | n < Pow256(2)
  type U32 = n: nat | n < Pow256(4)
  type U64 = n: nat | n < Pow256(8)
  type U128 = n: nat | n < Pow256(16)

  function Zeros(width: nat): (zeros: seq<Byte>)
    ensures |zeros| == width && forall i :: 0 <= i < width ==> zeros[i] == 0
  {
    seq(width, _ => 0)
  }

  type Digest = d: seq<Byte> | |d| == 32 witness Zeros(32)

  function Le(n: nat, width: nat): (bytes: seq<Byte>)
    ensures |bytes| == width
    decreases width
  {
    if width == 0 then [] else [n % 256] + Le(n / 256, width - 1)
  }

  function FromLe(bytes: seq<Byte>): (n: nat)
    ensures n < Pow256(|bytes|)
  {
    if bytes == [] then 0 else bytes[0] + 256 * FromLe(bytes[1..])
  }

  function FromLe16(bytes: seq<Byte>): (n: U16)
    requires |bytes| == 2
    ensures n == FromLe(bytes)
  {
    FromLe(bytes)
  }

  function FromLe32(bytes: seq<Byte>): (n: U32)
    requires |bytes| == 4
    ensures n == FromLe(bytes)
  {
    FromLe(bytes)
  }

  function FromLe64(bytes: seq<Byte>): (n: U64)
    requires |bytes| == 8
    ensures n == FromLe(bytes)
  {
    FromLe(bytes)
  }

  function FromLe128(bytes: seq<Byte>): (n: U128)
    requires |bytes| == 16
    ensures n == FromLe(bytes)
  {
    FromLe(bytes)
  }

  lemma {:induction false} IntegerSurvives(n: nat, width: nat)
    requires n < Pow256(width)
    ensures FromLe(Le(n, width)) == n
    decreases width
  {
    if width > 0 {
      IntegerSurvives(n / 256, width - 1);
      assert Le(n, width)[1..] == Le(n / 256, width - 1);
    }
  }

  lemma {:induction false} BytesSurvive(bytes: seq<Byte>)
    ensures Le(FromLe(bytes), |bytes|) == bytes
  {
    hide Le, FromLe;
    LeStep(FromLe(bytes), |bytes|);
    FromLeStep(bytes);
    if bytes != [] {
      LowByte(bytes[0], FromLe(bytes[1..]));
      BytesSurvive(bytes[1..]);
      assert bytes == [bytes[0]] + bytes[1..];
    }
  }

  lemma LeStep(n: nat, width: nat)
    ensures Le(n, width) == if width == 0 then [] else [n % 256] + Le(n / 256, width - 1)
  {
  }

  lemma FromLeStep(bytes: seq<Byte>)
    ensures FromLe(bytes) == if bytes == [] then 0 else bytes[0] + 256 * FromLe(bytes[1..])
  {
  }

  /** Byte `i` of a little-endian integer is its digit in base 256. */
  lemma {:induction false} LeByte(n: nat, width: nat, i: nat)
    requires i < width
    ensures Le(n, width)[i] == n / Pow256(i) % 256
    decreases i
  {
    if i > 0 {
      LeByte(n / 256, width - 1, i - 1);
      DivideTwice(n, Pow256(i - 1));
    }
  }

  lemma DivideTwice(n: nat, p: nat)
    requires p >= 1
    ensures n / 256 / p == n / (256 * p)
  {
    var a, q := n / 256, n / 256 / p;
    assert a == q * p + a % p;
    assert n == q * (256 * p) + (256 * (a % p) + n % 256);
    QuotientIs(n, 256 * p, q, 256 * (a % p) + n % 256);
  }

  lemma QuotientIs(n: nat, d: nat, q: nat, r: nat)
    requires d > 0 && n == q * d + r && r < d
    ensures n / d == q
  {
    var k, s := n / d, n % d;
    assert n == k * d + s;
    WholeStep(k, q, d);
    WholeStep(q, k, d);
  }

  lemma {:induction false} WholeStep(a: nat, b: nat, d: nat)
    ensures a > b ==> a * d >= b * d + d
    decreases a
  {
    if a > b {
      WholeStep(a - 1, b, d);
      assert a * d == (a - 1) * d + d;
    }
  }

  lemma LowByte(b: Byte, n: nat)
    ensures (b + 256 * n) % 256 == b && (b + 256 * n) / 256 == n
  {
  }

  // ---------------------------------------------------------------------
  // Records as concatenated fixed-width fields
  // ---------------------------------------------------------------------

  function Total(widths: seq<nat>): nat {
    if widths == [] then 0 else widths[0] + Total(widths[1..])
  }

  function Join(fields: seq<seq<Byte>>): seq<Byte> {
    if fields == [] then [] else fields[0] + Join(fields[1..])
  }

  function Split(widths: seq<nat>, bytes: seq<Byte>): (fields: seq<seq<Byte>>)
    requires |bytes| == Total(widths)
    ensures Shaped(fields, widths)
  {
    if widths == [] then []
    else [bytes[..widths[0]]] + Split(widths[1..], bytes[widths[0]..])
  }

  predicate Shaped(fields: seq<seq<Byte>>, widths: seq<nat>) {
    |fields| == |widths| && forall i :: 0 <= i < |fields| ==> |fields[i]| == widths[i]
  }

  lemma TotalStep(widths: seq<nat>)
    ensures Total(widths) == if widths == [] then 0 else widths[0] + Total(widths[1..])
  {
  }

  lemma SplitStep(widths: seq<nat>, bytes: seq<Byte>)
    requires |bytes| == Total(widths) && widths != []
    ensures widths[0] <= |bytes|
    ensures Split(widths, bytes) == [bytes[..widths[0]]] + Split(widths[1..], bytes[widths[0]..])
  {
  }

  lemma JoinFirst(fields: seq<seq<Byte>>)
    ensures Join(fields) == if fields == [] then [] else fields[0] + Join(fields[1..])
  {
  }

  lemma {:induction false} FieldsSurvive(fields: seq<seq<Byte>>, widths: seq<nat>)
    requires Shaped(fields, widths)
    ensures |Join(fields)| == Total(widths) && Split(widths, Join(fields)) == fields
  {
    hide Join, Split, Total;
    JoinFirst(fields);
    TotalStep(widths);
    if fields == [] {
      assert Split(widths, Join(fields)) == [];
    } else {
      FieldsSurvive(fields[1..], widths[1..]);
      SplitStep(widths, Join(fields));
      assert Join(fields)[..widths[0]] == fields[0];
      assert Join(fields)[widths[0]..] == Join(fields[1..]);
      assert fields == [fields[0]] + fields[1..];
    }
  }

  /** Field `i` of a record is the slice behind the fields before it. */
  lemma {:induction false} FieldIsSlice(widths: seq<nat>, bytes: seq<Byte>, i: nat, at: nat)
    requires |bytes| == Total(widths) && i < |widths| && at == Total(widths[..i])
    ensures at + widths[i] <= |bytes| && Split(widths, bytes)[i] == bytes[at..at + widths[i]]
    ensures Total(widths[..i + 1]) == at + widths[i]
  {
    hide Split, Total;
    TotalStep(widths);
    TotalStep(widths[..i]);
    TotalStep(widths[..i + 1]);
    SplitStep(widths, bytes);
    if i == 0 {
      assert widths[..1][1..] == [] && widths[..0] == [];
      TotalStep([]);
    } else {
      var w := widths[0];
      assert widths[..i][1..] == widths[1..][..i - 1] && widths[..i + 1][1..] == widths[1..][..i];
      FieldIsSlice(widths[1..], bytes[w..], i - 1, at - w);
      assert bytes[w..][at - w..at - w + widths[i]] == bytes[at..at + widths[i]];
    }
  }

  /** Field `i` of a joined record stands behind the fields before it. */
  lemma JoinedField(fields: seq<seq<Byte>>, widths: seq<nat>, i: nat, at: nat)
    requires Shaped(fields, widths) && i < |widths| && at == Total(widths[..i])
    ensures at + widths[i] <= |Join(fields)| && Join(fields)[at..at + widths[i]] == fields[i]
    ensures Total(widths[..i + 1]) == at + widths[i]
  {
    hide Split, Total, Join;
    FieldsSurvive(fields, widths);
    FieldIsSlice(widths, Join(fields), i, at);
  }

  lemma FieldStands(fields: seq<seq<Byte>>, widths: seq<nat>, i: nat, at: nat)
    requires Shaped(fields, widths) && i < |widths| && at == Total(widths[..i])
    ensures StandsAt(Join(fields), at, fields[i]) && Total(widths[..i + 1]) == at + widths[i]
  {
    hide Join, Total;
    JoinedField(fields, widths, i, at);
  }

  /** The part stands in the string from `at` on. */
  ghost predicate StandsAt(bytes: seq<Byte>, at: nat, part: seq<Byte>) {
    at + |part| <= |bytes| && bytes[at..at + |part|] == part
  }

  /** A part that stands in the string is there byte for byte. */
  lemma ByteOfPart(bytes: seq<Byte>, at: nat, part: seq<Byte>)
    ensures StandsAt(bytes, at, part) <==>
              at + |part| <= |bytes| && forall i :: 0 <= i < |part| ==> bytes[at + i] == part[i]
  {
  }

  lemma NothingBefore(widths: seq<nat>)
    ensures Total(widths[..0]) == 0
  {
  }

  lemma {:induction false} FramingSurvives(widths: seq<nat>, bytes: seq<Byte>)
    requires |bytes| == Total(widths)
    ensures Join(Split(widths, bytes)) == bytes
  {
    if widths != [] {
      FramingSurvives(widths[1..], bytes[widths[0]..]);
      assert bytes == bytes[..widths[0]] + bytes[widths[0]..];
    }
  }

  /** The total of a tail, one width at a time. */
  lemma TotalFrom(widths: seq<nat>, i: nat)
    requires i <= |widths|
    ensures Total(widths[i..]) == if i == |widths| then 0 else widths[i] + Total(widths[i + 1..])
  {
    if i < |widths| {
      assert widths[i..][1..] == widths[i + 1..];
    }
  }

  /** Appending a field appends its bytes. */
  lemma {:induction false} JoinStep(fields: seq<seq<Byte>>, i: nat)
    requires i < |fields|
    ensures Join(fields[..i + 1]) == Join(fields[..i]) + fields[i]
  {
    if i == 0 {
      assert fields[..1][1..] == [] && fields[..0] == [];
    } else {
      JoinStep(fields[1..], i - 1);
      assert fields[..i + 1][1..] == fields[1..][..i] && fields[..i][1..] == fields[1..][..i - 1];
    }
  }
}
