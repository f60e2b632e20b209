/** Python's strict `bytes.decode('utf-8')`, as the receiver applies it to
    the five tag bytes of every frame header. Well-formedness follows table
    3-7 of the Unicode Standard (chapter 3, "Conformance"): no overlong
    forms, no surrogates, nothing above U+10FFFF. */
module Utf8 {
  import opened Common
  import opened Text

  /** One element of a Python `bytes` object. */
  type Byte = x: int | 0 <= x < 256

  predicate IsContinuation(b: Byte) {
    0x80 <= b <= 0xBF
  }

  /** The second byte of a three-byte sequence: E0 excludes overlong forms,
      ED excludes the surrogates. */
  predicate SecondOfThree(lead: Byte, b: Byte) {
    if lead == 0xE0 then 0xA0 <= b <= 0xBF
    else if lead == 0xED then 0x80 <= b <= 0x9F
    else IsContinuation(b)
  }

  /** The second byte of a four-byte sequence: F0 excludes overlong forms,
      F4 excludes everything above U+10FFFF. */
  predicate SecondOfFour(lead: Byte, b: Byte) {
    if lead == 0xF0 then 0x90 <= b <= 0xBF
    else if lead == 0xF4 then 0x80 <= b <= 0x8F
    else IsContinuation(b)
  }

  /** The six payload bits of a continuation byte. */
  function Low6(b: Byte): int {
    b as int - 0x80
  }

  /** Length of the well-formed sequence that starts at index `i` of
      `b[..end]`; 0 when it is ill-formed or cut short by `end`. */
  function SequenceLength(b: seq<Byte>, i: nat, end: nat): (n: nat)
    requires i <= end <= |b|
    ensures i + n <= end && n <= 4
    ensures i < end && b[i] < 0x80 ==> n == 1
    ensures i < end && (0x80 <= b[i] < 0xC2 || b[i] > 0xF4) ==> n == 0
  {
    if i == end then 0
    else if b[i] < 0x80 then 1
    else if 0xC2 <= b[i] <= 0xDF then
      (if i + 2 <= end && IsContinuation(b[i + 1]) then 2 else 0)
    else if 0xE0 <= b[i] <= 0xEF then
      (if i + 3 <= end && SecondOfThree(b[i], b[i + 1]) && IsContinuation(b[i + 2]) then 3 else 0)
    else if 0xF0 <= b[i] <= 0xF4 then
      (if i + 4 <= end && SecondOfFour(b[i], b[i + 1]) && IsContinuation(b[i + 2]) && IsContinuation(b[i + 3])
       then 4 else 0)
    else 0
  }

  /** The code point of the well-formed sequence at index `i`. Each length
      covers exactly its own range, so every code point has one encoding. */
  function CodePoint(b: seq<Byte>, i: nat, end: nat): (c: int)
    requires i <= end <= |b| && SequenceLength(b, i, end) > 0
    ensures SequenceLength(b, i, end) == 1 ==> c == b[i]
    ensures SequenceLength(b, i, end) == 2 ==> 0x80 <= c < 0x800
    ensures SequenceLength(b, i, end) == 3 ==> 0x800 <= c < 0x10000 && !(0xD800 <= c < 0xE000)
    ensures SequenceLength(b, i, end) == 4 ==> 0x10000 <= c < 0x110000
  {
    var n := SequenceLength(b, i, end);
    var lead: int := b[i];
    if n == 1 then lead
    else if n == 2 then (lead - 0xC0) * 0x40 + Low6(b[i + 1])
    else if n == 3 then (lead - 0xE0) * 0x1000 + Low6(b[i + 1]) * 0x40 + Low6(b[i + 2])
    else (lead - 0xF0) * 0x40000 + Low6(b[i + 1]) * 0x1000 + Low6(b[i + 2]) * 0x40 + Low6(b[i + 3])
  }

  /** `b[i:end].decode('utf-8')`, one sequence at a time. */
  function DecodeRange(b: seq<Byte>, i: nat, end: nat): (r: Option<string>)
    requires i <= end <= |b|
    ensures r.Some? ==> |r.value| <= end - i
    decreases end - i
  {
    if i == end then Some([])
    else
      var n := SequenceLength(b, i, end);
      if n == 0 then None
      else
        match DecodeRange(b, i + n, end)
        case None => None
        case Some(rest) => Some([CodePoint(b, i, end) as char] + rest)
  }

  /** `bytes.decode('utf-8')`: `None` stands for the `UnicodeDecodeError`.
      A decoded text is never longer than its bytes. */
  function Decode(b: seq<Byte>): (r: Option<string>)
    ensures r.Some? ==> |r.value| <= |b|
  {
    DecodeRange(b, 0, |b|)
  }

  /** Decoding a range reads nothing outside it. */
  lemma {:induction false} RangeLocal(b: seq<Byte>, c: seq<Byte>, i: nat, end: nat)
    requires i <= end <= |b| && end <= |c|
    requires forall k :: i <= k < end ==> b[k] == c[k]
    ensures DecodeRange(b, i, end) == DecodeRange(c, i, end)
    decreases end - i
  {
    if i < end {
      assert SequenceLength(b, i, end) == SequenceLength(c, i, end);
      var n := SequenceLength(b, i, end);
      if n > 0 {
        RangeLocal(b, c, i + n, end);
      }
    }
  }

  /** Decoding the first `n` bytes in place is decoding the slice `b[:n]`. */
  lemma {:induction false} DecodePrefix(b: seq<Byte>, n: nat)
    requires n <= |b|
    ensures DecodeRange(b, 0, n) == Decode(b[..n])
  {
    RangeLocal(b, b[..n], 0, n);
  }

  /** A text as long as its bytes came from ASCII bytes, each standing for
      itself. */
  lemma {:induction false} FullLengthIsAscii(b: seq<Byte>)
    requires Decode(b).Some? && |Decode(b).value| == |b|
    ensures forall i :: 0 <= i < |b| ==> b[i] < 0x80 && Decode(b).value[i] as int == b[i]
  {
    FullLengthFrom(b, 0);
  }

  lemma {:induction false} FullLengthFrom(b: seq<Byte>, i: nat)
    requires i <= |b| && DecodeRange(b, i, |b|).Some? && |DecodeRange(b, i, |b|).value| == |b| - i
    ensures forall j :: i <= j < |b| ==> b[j] < 0x80 && DecodeRange(b, i, |b|).value[j - i] as int == b[j]
    decreases |b| - i
  {
    if i < |b| {
      var n := SequenceLength(b, i, |b|);
      var rest := DecodeRange(b, i + n, |b|).value;
      assert |rest| <= |b| - i - n;
      assert n == 1;
      FullLengthFrom(b, i + 1);
    }
  }

  /** The bytes of an ASCII text, one per character. */
  function AsciiBytes(s: string): (b: seq<Byte>)
    requires IsAscii(s)
    ensures |b| == |s|
    ensures forall i :: 0 <= i < |s| ==> b[i] == s[i] as int
  {
    seq(|s|, i requires 0 <= i < |s| => s[i] as int)
  }

  /** ASCII text survives encoding and decoding unchanged. */
  lemma {:induction false} AsciiRoundTrip(s: string)
    requires IsAscii(s)
    ensures Decode(AsciiBytes(s)) == Some(s)
  {
    AsciiFrom(s, 0);
  }

  lemma {:induction false} AsciiFrom(s: string, i: nat)
    requires IsAscii(s) && i <= |s|
    ensures DecodeRange(AsciiBytes(s), i, |s|) == Some(s[i..])
    decreases |s| - i
  {
    if i < |s| {
      var b := AsciiBytes(s);
      assert SequenceLength(b, i, |s|) == 1;
      AsciiFrom(s, i + 1);
      assert s[i..] == [s[i]] + s[i + 1..];
    } else {
      assert s[i..] == [];
    }
  }

  /** A two-byte character decodes; an overlong form, a surrogate and a
      lone continuation byte do not. */
  lemma {:induction false} DecodeExamples()
    ensures Decode([0xC3, 0xA9]) == Some("\U{E9}")
    ensures Decode([0xC0, 0x80]) == None
    ensures Decode([0xED, 0xA0, 0x80]) == None
    ensures Decode([0x80]) == None
  {
    var e: seq<Byte> := [0xC3, 0xA9];
    assert SequenceLength(e, 0, 2) == 2 && CodePoint(e, 0, 2) == 0xE9;
    assert DecodeRange(e, 2, 2) == Some([]);
    assert Decode(e) == Some([0xE9 as char] + []);
    assert 0xE9 as char == '\U{E9}';
    assert [0xE9 as char] + [] == "\U{E9}";
    assert e == [0xC3, 0xA9];
  }
}
