/** Names of the entries a `.msg` storage holds (sections 2.2.1, 2.2.2 and
    2.2.2.1 of [MS-OXMSG]) and the `%08X` index formatting the parser uses to
    build the names of the recipient and attachment storages. */
module Names {

  const PropertiesStreamName: string := "__properties_version1.0"
  const RecipientPrefix: string := "__recip_version1.0_#"
  const AttachmentPrefix: string := "__attach_version1.0_#"
  /** The storage of the attached-object property (PidTagAttachDataObject,
      tag 0x3701000D): its presence marks an embedded message. */
  const EmbeddedMessageMarker: string := "__substg1.0_3701000D"

  function Pow16(k: nat): (r: nat)
    ensures r >= 1
  {
    if k == 0 then 1 else 16 * Pow16(k - 1)
  }

  /** An upper-case hexadecimal digit, as `%X` writes them. */
  predicate IsHexDigit(c: char) {
    '0' <= c <= '9' || 'A' <= c <= 'F'
  }

  predicate IsHexString(s: string) {
    forall i :: 0 <= i < |s| ==> IsHexDigit(s[i])
  }

  function DigitValue(c: char): (d: nat)
    requires IsHexDigit(c)
    ensures d < 16
  {
    if c <= '9' then c as int - '0' as int else c as int - 'A' as int + 10
  }

  function HexDigit(d: nat): (c: char)
    requires d < 16
    ensures IsHexDigit(c) && DigitValue(c) == d
  {
    if d < 10 then ('0' as int + d) as char else ('A' as int + (d - 10)) as char
  }

  /** The `width` least significant hexadecimal digits of `n`, most significant
      first and padded with leading zeros. Java's `%0<width>X` pads to at least
      `width` digits and never drops one, so the two agree when
      `n < 16^width`, as every loop index (below 2^31) is for width 8. */
  function PaddedHex(n: nat, width: nat): (s: string)
    ensures |s| == width && IsHexString(s)
    decreases width
  {
    if width == 0 then "" else PaddedHex(n / 16, width - 1) + [HexDigit(n % 16)]
  }

  /** The number a string of hexadecimal digits denotes. */
  function HexValue(s: string): (n: nat)
    requires IsHexString(s)
    ensures n < Pow16(|s|)
    decreases |s|
  {
    if s == [] then 0 else 16 * HexValue(s[..|s| - 1]) + DigitValue(s[|s| - 1])
  }

  /** Reading back a padded hexadecimal string gives the number written. */
  lemma {:induction false} PaddedHexRoundTrip(n: nat, width: nat)
    requires n < Pow16(width)
    ensures IsHexString(PaddedHex(n, width)) && HexValue(PaddedHex(n, width)) == n
    decreases width
  {
    if width > 0 {
      var s := PaddedHex(n, width);
      assert s[..width - 1] == PaddedHex(n / 16, width - 1);
      PaddedHexRoundTrip(n / 16, width - 1);
    }
  }

  /** ... and every string of hexadecimal digits is the padded form of its value. */
  lemma {:induction false} HexValueRoundTrip(s: string)
    requires IsHexString(s)
    ensures PaddedHex(HexValue(s), |s|) == s
    decreases |s|
  {
    if s != [] {
      var init, last := s[..|s| - 1], s[|s| - 1];
      HexValueRoundTrip(init);
      var n := HexValue(s);
      assert n / 16 == HexValue(init) && n % 16 == DigitValue(last);
      assert HexDigit(DigitValue(last)) == last;
      assert s == init + [last];
    }
  }

  /** The `%08X` form of an index: eight upper-case hexadecimal digits. */
  function Hex8(index: nat): (s: string)
    ensures |s| == 8 && IsHexString(s)
  {
    PaddedHex(index, 8)
  }

  /** The eight digits of `Hex8(index)` denote `index`. */
  lemma Hex8Value(index: nat)
    requires index < 0x1_0000_0000
    ensures IsHexString(Hex8(index)) && HexValue(Hex8(index)) == index
  {
    assert Pow16(8) == 0x1_0000_0000;
    PaddedHexRoundTrip(index, 8);
  }

  /** Hexadecimal digit `j` of `n`, counting from the least significant. */
  function DigitAt(n: nat, j: nat): (d: nat)
    ensures d < 16
    decreases j
  {
    if j == 0 then n % 16 else DigitAt(n / 16, j - 1)
  }

  /** Character `j` of the padded form is the digit `width - 1 - j` places
      from the right. */
  lemma {:induction false} PaddedHexAt(n: nat, width: nat, j: nat)
    requires j < width
    ensures PaddedHex(n, width)[j] == HexDigit(DigitAt(n, width - 1 - j))
    decreases width
  {
    if j < width - 1 {
      PaddedHexAt(n / 16, width - 1, j);
    }
  }

  /** A prefix followed by the `%08X` form of `n`: the prefix, then the eight
      hexadecimal digits of `n`, most significant first. */
  function IndexedName(prefix: string, n: nat): (s: string)
    ensures |s| == |prefix| + 8
    ensures s[..|prefix|] == prefix && IsHexString(s[|prefix|..])
  {
    seq(|prefix| + 8, k requires 0 <= k < |prefix| + 8 =>
      if k < |prefix| then prefix[k] else HexDigit(DigitAt(n, |prefix| + 7 - k)))
  }

  /** The indexed name is the prefix followed by `%08X` of `n`. */
  lemma IndexedNameParts(prefix: string, n: nat)
    ensures IndexedName(prefix, n) == prefix + Hex8(n)
  {
    var s, t := IndexedName(prefix, n), prefix + Hex8(n);
    forall k | |prefix| <= k < |s|
      ensures s[k] == t[k]
    {
      PaddedHexAt(n, 8, k - |prefix|);
    }
    assert s == t;
  }

  /** The name of recipient storage `index`: `__recip_version1.0_#` and the
      `%08X` form of the index. */
  function RecipientStorageName(index: nat): (s: string)
    ensures |s| == |RecipientPrefix| + 8
    ensures s[..|RecipientPrefix|] == RecipientPrefix && IsHexString(s[|RecipientPrefix|..])
  {
    IndexedName(RecipientPrefix, index)
  }

  /** The name of attachment storage `index`: `__attach_version1.0_#` and the
      `%08X` form of the index. */
  function AttachmentStorageName(index: nat): (s: string)
    ensures |s| == |AttachmentPrefix| + 8
    ensures s[..|AttachmentPrefix|] == AttachmentPrefix && IsHexString(s[|AttachmentPrefix|..])
  {
    IndexedName(AttachmentPrefix, index)
  }

  /** A storage name is its prefix followed by the eight hexadecimal digits
      of its index. */
  lemma StorageNameParts(index: nat)
    requires index < 0x1_0000_0000
    ensures RecipientStorageName(index) == RecipientPrefix + Hex8(index)
    ensures AttachmentStorageName(index) == AttachmentPrefix + Hex8(index)
    ensures var r := RecipientStorageName(index);
            && |r| == |RecipientPrefix| + 8 && r[..|RecipientPrefix|] == RecipientPrefix
            && IsHexString(r[|RecipientPrefix|..]) && HexValue(r[|RecipientPrefix|..]) == index
    ensures var a := AttachmentStorageName(index);
            && |a| == |AttachmentPrefix| + 8 && a[..|AttachmentPrefix|] == AttachmentPrefix
            && IsHexString(a[|AttachmentPrefix|..]) && HexValue(a[|AttachmentPrefix|..]) == index
  {
    assert Pow16(8) == 0x1_0000_0000;
    Hex8Value(index);
    IndexedNameParts(RecipientPrefix, index);
    IndexedNameParts(AttachmentPrefix, index);
    assert RecipientStorageName(index)[|RecipientPrefix|..] == Hex8(index);
    assert AttachmentStorageName(index)[|AttachmentPrefix|..] == Hex8(index);
  }

  /** The storage names of one directory never clash: each index names its own
      recipient and its own attachment storage, and neither kind is the
      property stream or the embedded-message marker. */
  lemma StorageNamesDistinct(i: nat, j: nat)
    requires i < 0x1_0000_0000 && j < 0x1_0000_0000
    ensures RecipientStorageName(i) == RecipientStorageName(j) <==> i == j
    ensures AttachmentStorageName(i) == AttachmentStorageName(j) <==> i == j
    ensures RecipientStorageName(i) != AttachmentStorageName(j)
    ensures RecipientStorageName(i) != PropertiesStreamName && RecipientStorageName(i) != EmbeddedMessageMarker
    ensures AttachmentStorageName(i) != PropertiesStreamName && AttachmentStorageName(i) != EmbeddedMessageMarker
  {
    StorageNameParts(i);
    StorageNameParts(j);
    var r, a := RecipientStorageName(i), AttachmentStorageName(j);
    assert r[2] == RecipientPrefix[2] == 'r';
    assert a[2] == AttachmentPrefix[2] == 'a';
    assert |r| != |PropertiesStreamName| && |r| != |EmbeddedMessageMarker|;
    assert |AttachmentStorageName(i)| != |PropertiesStreamName|;
    assert AttachmentStorageName(i)[2] == AttachmentPrefix[2] != EmbeddedMessageMarker[2];
  }
}
