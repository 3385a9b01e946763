/** Property records and the walk that decodes them from a property stream
    until the stream is exhausted. The record decoder itself (the `Property`
    constructor) is a parameter: the model relies only on its contract that a
    successful decode consumes at least one byte and no more than remain. */
module Properties {
  import opened Results
  import opened Storage

  /** A 32-bit unsigned value: a property tag. */
  newtype uint32 = x: int | 0 <= x < 0x1_0000_0000

  /** One decoded property record: its 32-bit tag (property id and property
      type) and the value the decoder produced for it. */
  datatype Property = Property(tag: uint32, value: seq<byte>)

  /** A record and the cursor position just after it. */
  datatype Decoded = Decoded(property: Property, next: nat)

  /** `new Property(propertyStream, dir)`: decodes one record of `bytes` at
      `pos`; the directory gives access to the record's auxiliary streams. */
  type Decoder = (map<string, Entry>, seq<byte>, nat) -> Result<Decoded>

  /** The decoder's contract: a record it accepts takes at least one byte and
      lies within the stream. */
  ghost predicate Advances(decode: Decoder) {
    forall dir, bytes, pos: nat ::
      pos <= |bytes| && decode(dir, bytes, pos).Ok? ==>
        pos < decode(dir, bytes, pos).value.next <= |bytes|
  }

  /** The records a loop that decodes while bytes are available reads from
      `bytes` starting at `pos`: it stops exactly when no byte is left, and a
      record the decoder rejects fails the whole walk. */
  function Walk(decode: Decoder, dir: map<string, Entry>, bytes: seq<byte>, pos: nat): (r: Result<seq<Property>>)
    requires Advances(decode)
    requires pos <= |bytes|
    ensures r.Ok? ==> |r.value| <= |bytes| - pos
    ensures r.Ok? ==> (r.value == [] <==> pos == |bytes|)
    decreases |bytes| - pos
  {
    if pos == |bytes| then Ok([])
    else
      var d :- decode(dir, bytes, pos);
      var rest :- Walk(decode, dir, bytes, d.next);
      Ok([d.property] + rest)
  }

  /** `acc` followed by the records of `r`, when `r` succeeds. */
  function Prepend(acc: seq<Property>, r: Result<seq<Property>>): Result<seq<Property>> {
    match r
    case Ok(rest) => Ok(acc + rest)
    case Fail => Fail
  }

  /** Nothing read yet: the walk is the walk from the cursor. */
  lemma PrependNothing(r: Result<seq<Property>>)
    ensures Prepend([], r) == r
  {
    if r.Ok? {
      assert [] + r.value == r.value;
    }
  }

  /** One step of the loop: a walk that has not reached the end is the record
      at the cursor followed by the walk from just after it. */
  lemma WalkStep(decode: Decoder, dir: map<string, Entry>, bytes: seq<byte>, pos: nat, acc: seq<Property>)
    requires Advances(decode)
    requires pos < |bytes| && decode(dir, bytes, pos).Ok?
    ensures Prepend(acc, Walk(decode, dir, bytes, pos))
         == Prepend(acc + [decode(dir, bytes, pos).value.property],
                    Walk(decode, dir, bytes, decode(dir, bytes, pos).value.next))
  {
    var d := decode(dir, bytes, pos).value;
    match Walk(decode, dir, bytes, d.next)
    case Ok(rest) =>
      assert acc + ([d.property] + rest) == acc + [d.property] + rest;
    case Fail =>
  }

  /** A decoder whose every record is `k` bytes long: it accepts a record
      exactly when at least `k` bytes remain. */
  ghost predicate FixedStride(decode: Decoder, k: nat)
    ensures FixedStride(decode, k) ==> Advances(decode)
  {
    k > 0 &&
    forall dir, bytes, pos: nat :: pos <= |bytes| ==>
      (decode(dir, bytes, pos).Ok? <==> pos + k <= |bytes|) &&
      (decode(dir, bytes, pos).Ok? ==> decode(dir, bytes, pos).value.next == pos + k)
  }

  lemma StrideDivMod(n: nat, k: nat)
    requires 0 < k <= n
    ensures n % k == (n - k) % k && n / k == (n - k) / k + 1
  {
    var q, r := (n - k) / k, (n - k) % k;
    assert n == (q + 1) * k + r;
    DivModUnique(n, k, q + 1, r);
  }

  lemma DivModUnique(n: int, k: int, q: int, r: int)
    requires 0 <= r < k && n == q * k + r
    ensures n / k == q && n % k == r
  {
    var d := q - n / k;
    assert d * k == n % k - r by {
      assert n == (n / k) * k + n % k;
      assert q * k - (n / k) * k == d * k;
    }
    if d > 0 {
      MulAtLeast(d, k);
    } else if d < 0 {
      MulAtLeast(-d, k);
    }
  }

  lemma MulAtLeast(d: int, k: int)
    requires d >= 1 && k > 0
    ensures d * k >= k
  {
    assert d * k == k + (d - 1) * k;
  }

  /** With fixed-size records the walk succeeds exactly when the bytes left
      are a whole number of records, and it then decodes that many records,
      consuming the stream with no byte left over. */
  lemma {:induction false} FixedStrideWalk(decode: Decoder, k: nat, dir: map<string, Entry>, bytes: seq<byte>, pos: nat)
    requires FixedStride(decode, k)
    requires pos <= |bytes|
    ensures Walk(decode, dir, bytes, pos).Ok? <==> (|bytes| - pos) % k == 0
    ensures Walk(decode, dir, bytes, pos).Ok? ==> |Walk(decode, dir, bytes, pos).value| == (|bytes| - pos) / k
    decreases |bytes| - pos
  {
    var n := |bytes| - pos;
    if n == 0 {
      DivModUnique(n, k, 0, 0);
    } else if k <= n {
      assert decode(dir, bytes, pos).Ok? && decode(dir, bytes, pos).value.next == pos + k;
      FixedStrideWalk(decode, k, dir, bytes, pos + k);
      StrideDivMod(n, k);
      WalkStep(decode, dir, bytes, pos, []);
    } else {
      assert decode(dir, bytes, pos).Fail?;
      DivModUnique(n, k, 0, n);
    }
  }
}
