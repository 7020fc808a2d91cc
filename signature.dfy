/**
 * `Signature::to_bytes`: the text of a byte signature such as
 * "48 8b 0d ?? ?? ?? ??" becomes one integer per two-character chunk.
 *
 * The source removes every space, cuts the rest into chunks of two bytes
 * (the last chunk has one byte when the length is odd), maps a chunk that
 * holds a '?' to the wildcard sentinel 0xCC and parses every other chunk with
 * `i32::from_str_radix(chunk, 16)`, unwrapping the result. A chunk that is not
 * valid UTF-8 or not a radix-16 literal makes the program panic, so
 * well-formedness is a precondition here.
 */
module Signature {
  import opened Remote

  /** The sentinel that stands for "any byte". */
  const WILDCARD: int := 0xCC

  predicate IsHexDigit(c: char)
  {
    '0' <= c <= '9' || 'a' <= c <= 'f' || 'A' <= c <= 'F'
  }

  function DigitValue(c: char): (d: int)
    requires IsHexDigit(c)
    ensures 0 <= d < 16
  {
    if '0' <= c <= '9' then c as int - '0' as int
    else if 'a' <= c <= 'f' then c as int - 'a' as int + 10
    else c as int - 'A' as int + 10
  }

  /**
   * What `i32::from_str_radix(_, 16)` accepts in a chunk of one or two
   * characters: hex digits, optionally after one '+' or '-' sign (a sign on
   * its own is an error).
   */
  predicate IsRadix16Literal(chunk: string)
  {
    || (|chunk| == 1 && IsHexDigit(chunk[0]))
    || (|chunk| == 2 && IsHexDigit(chunk[1])
        && (IsHexDigit(chunk[0]) || chunk[0] == '+' || chunk[0] == '-'))
  }

  function Radix16Value(chunk: string): (v: int)
    requires IsRadix16Literal(chunk)
    ensures -15 <= v <= 0xFF
  {
    if |chunk| == 1 then DigitValue(chunk[0])
    else if chunk[0] == '+' then DigitValue(chunk[1])
    else if chunk[0] == '-' then -DigitValue(chunk[1])
    else 16 * DigitValue(chunk[0]) + DigitValue(chunk[1])
  }

  /**
   * A chunk survives `str::from_utf8` and the unwrap of `from_str_radix`:
   * its characters are ASCII (a chunk cut through a multi-byte character is
   * invalid UTF-8, and a whole non-ASCII character is not a hex digit), and
   * unless it holds a '?' it is a radix-16 literal.
   */
  predicate ChunkParses(chunk: string)
  {
    && (forall i | 0 <= i < |chunk| :: chunk[i] as int < 0x80)
    && ('?' in chunk || IsRadix16Literal(chunk))
  }

  function ChunkValue(chunk: string): (v: int)
    requires ChunkParses(chunk)
    ensures '?' in chunk ==> v == WILDCARD
    ensures '?' !in chunk ==> v == Radix16Value(chunk)
  {
    if '?' in chunk then WILDCARD else Radix16Value(chunk)
  }

  /** `replace(' ', "")`: only the space character is removed. */
  function RemoveSpaces(s: string): (r: string)
    ensures ' ' !in r
    ensures |r| <= |s|
    ensures forall c :: c in r <==> c in s && c != ' '
  {
    if s == [] then []
    else if s[0] == ' ' then RemoveSpaces(s[1..])
    else [s[0]] + RemoveSpaces(s[1..])
  }

  function Min(a: int, b: int): int { if a <= b then a else b }

  /** The number of two-character chunks `chunks(2)` yields. */
  function ChunkCount(cleaned: string): nat
  {
    (|cleaned| + 1) / 2
  }

  /** Chunk number k of the cleaned text. */
  function Chunk(cleaned: string, k: nat): (chunk: string)
    requires k < ChunkCount(cleaned)
    ensures 1 <= |chunk| <= 2
  {
    cleaned[2 * k .. Min(2 * k + 2, |cleaned|)]
  }

  /** Every chunk of the cleaned text parses. */
  predicate Compiles(cleaned: string)
    decreases |cleaned|
  {
    if |cleaned| <= 2 then |cleaned| == 0 || ChunkParses(cleaned)
    else ChunkParses(cleaned[..2]) && Compiles(cleaned[2..])
  }

  /** The signature text is one that `to_bytes` converts without panicking. */
  predicate WellFormed(sig: string)
  {
    Compiles(RemoveSpaces(sig))
  }

  lemma {:induction false} ChunkOfTail(cleaned: string, k: nat)
    requires |cleaned| > 2 && 1 <= k < ChunkCount(cleaned)
    ensures k - 1 < ChunkCount(cleaned[2..])
    ensures Chunk(cleaned[2..], k - 1) == Chunk(cleaned, k)
  {
    var tail := cleaned[2..];
    var lo, hi := 2 * (k - 1), Min(2 * k, |tail|);
    assert |tail| == |cleaned| - 2;
    assert 2 * k + 2 == lo + 4 && Min(2 * k + 2, |cleaned|) == hi + 2;
    assert lo <= hi <= |tail|;
    forall i | 0 <= i < hi - lo
      ensures tail[lo..hi][i] == cleaned[lo + 2 .. hi + 2][i]
    {
      assert tail[lo + i] == cleaned[lo + i + 2];
    }
    assert tail[lo..hi] == cleaned[lo + 2 .. hi + 2];
  }

  /**
   * The chunk-by-chunk conversion. The result has one value per chunk and
   * value k is that of chunk k: 0xCC for a chunk with a '?', its radix-16
   * value otherwise.
   */
  function Compile(cleaned: string): (r: seq<int>)
    requires Compiles(cleaned)
    ensures |r| == ChunkCount(cleaned)
    ensures forall k | 0 <= k < |r| ::
      ChunkParses(Chunk(cleaned, k)) && r[k] == ChunkValue(Chunk(cleaned, k))
    decreases |cleaned|
  {
    if |cleaned| == 0 then []
    else if |cleaned| <= 2 then
      assert Chunk(cleaned, 0) == cleaned;
      [ChunkValue(cleaned)]
    else
      var rest := Compile(cleaned[2..]);
      var r := [ChunkValue(cleaned[..2])] + rest;
      assert Chunk(cleaned, 0) == cleaned[..2];
      assert forall k | 1 <= k < |r| :: Chunk(cleaned[2..], k - 1) == Chunk(cleaned, k) by {
        forall k | 1 <= k < |r| ensures Chunk(cleaned[2..], k - 1) == Chunk(cleaned, k) {
          ChunkOfTail(cleaned, k);
        }
      }
      r
  }

  /** `Signature::to_bytes`. */
  function ToBytes(sig: string): (r: seq<int>)
    requires WellFormed(sig)
    ensures |r| == (|RemoveSpaces(sig)| + 1) / 2
    ensures forall k | 0 <= k < |r| :: -15 <= r[k] <= 0xFF
  {
    Compile(RemoveSpaces(sig))
  }

  // ----- Properties -------------------------------------------------------

  lemma {:induction false} RemoveSpacesAppend(a: string, b: string)
    ensures RemoveSpaces(a + b) == RemoveSpaces(a) + RemoveSpaces(b)
    decreases |a|
  {
    if a == [] {
      assert a + b == b;
    } else {
      assert (a + b)[1..] == a[1..] + b;
      RemoveSpacesAppend(a[1..], b);
    }
  }

  /** An empty compiled pattern comes exactly from text made of spaces. */
  lemma EmptyPatternIsBlankText(sig: string)
    requires WellFormed(sig)
    ensures |ToBytes(sig)| == 0 <==> forall i | 0 <= i < |sig| :: sig[i] == ' '
  {
    var cleaned := RemoveSpaces(sig);
    if |cleaned| > 0 {
      assert cleaned[0] in cleaned;
    }
    if exists i | 0 <= i < |sig| :: sig[i] != ' ' {
      var i :| 0 <= i < |sig| && sig[i] != ' ';
      assert sig[i] in sig;
    }
  }

  /**
   * An odd-length cleaned text is accepted, not rejected: its last value
   * comes from a one-character chunk, read as a single hex digit (or 0xCC
   * for a lone '?').
   */
  lemma OddLengthKeepsLastDigit(sig: string)
    requires WellFormed(sig)
    requires |RemoveSpaces(sig)| % 2 == 1
    ensures var cleaned, r := RemoveSpaces(sig), ToBytes(sig);
      && |r| == (|cleaned| + 1) / 2
      && Chunk(cleaned, |r| - 1) == [cleaned[|cleaned| - 1]]
      && r[|r| - 1] == ChunkValue([cleaned[|cleaned| - 1]])
  {
    var cleaned, r := RemoveSpaces(sig), ToBytes(sig);
    assert Chunk(cleaned, |r| - 1) == [cleaned[|cleaned| - 1]];
  }

  // ----- The text a byte sequence is written as, and the round trip ------

  function HexChar(d: int): (c: char)
    requires 0 <= d < 16
    ensures IsHexDigit(c) && DigitValue(c) == d
  {
    if d < 10 then ('0' as int + d) as char else ('A' as int + d - 10) as char
  }

  /** One byte as two upper-case hex digits. */
  function HexByte(b: byte): (s: string)
    ensures |s| == 2 && ' ' !in s
  {
    [HexChar(b as int / 16), HexChar(b as int % 16)]
  }

  /** Bytes written the way signatures are written: "48 8B 0D". */
  function Format(bytes: seq<byte>): string
  {
    if |bytes| == 0 then ""
    else if |bytes| == 1 then HexByte(bytes[0])
    else HexByte(bytes[0]) + " " + Format(bytes[1..])
  }

  function AsInts(bytes: seq<byte>): (r: seq<int>)
    ensures |r| == |bytes| && forall i | 0 <= i < |r| :: r[i] == bytes[i] as int
  {
    seq(|bytes|, i requires 0 <= i < |bytes| => bytes[i] as int)
  }

  lemma HexByteParses(b: byte)
    ensures RemoveSpaces(HexByte(b)) == HexByte(b)
    ensures ChunkParses(HexByte(b)) && '?' !in HexByte(b)
    ensures ChunkValue(HexByte(b)) == b as int
  {
    var s := HexByte(b);
    assert RemoveSpaces(s[1..]) == s[1..];
    assert s[0] != '?' && s[1] != '?';
  }

  /**
   * Round trip: the text of any wildcard-free byte sequence compiles back to
   * exactly those bytes.
   */
  lemma {:induction false} FormatRoundTrip(bytes: seq<byte>)
    ensures WellFormed(Format(bytes))
    ensures ToBytes(Format(bytes)) == AsInts(bytes)
    decreases |bytes|
  {
    if |bytes| == 0 {
    } else if |bytes| == 1 {
      HexByteParses(bytes[0]);
      assert Format(bytes) == HexByte(bytes[0]);
    } else {
      FormatRoundTrip(bytes[1..]);
      FormatRoundTripStep(bytes);
    }
  }

  /** The round trip for the text of two or more bytes, given it for all but the first. */
  lemma FormatRoundTripStep(bytes: seq<byte>)
    requires |bytes| > 1
    requires WellFormed(Format(bytes[1..])) && ToBytes(Format(bytes[1..])) == AsInts(bytes[1..])
    ensures WellFormed(Format(bytes))
    ensures ToBytes(Format(bytes)) == AsInts(bytes)
  {
    var head, rest := HexByte(bytes[0]), RemoveSpaces(Format(bytes[1..]));
    HexByteParses(bytes[0]);
    CleanedFormat(bytes);
    assert |ToBytes(Format(bytes[1..]))| == |bytes| - 1;
    assert |rest| > 0;
    CompileCons(head, rest);
    calc {
      ToBytes(Format(bytes));
      Compile(head + rest);
      [ChunkValue(head)] + Compile(rest);
      [bytes[0] as int] + AsInts(bytes[1..]);
      { AsIntsCons(bytes); }
      AsInts(bytes);
    }
  }

  lemma AsIntsCons(bytes: seq<byte>)
    requires |bytes| > 0
    ensures AsInts(bytes) == [bytes[0] as int] + AsInts(bytes[1..])
  {
    var r, tail := AsInts(bytes), AsInts(bytes[1..]);
    forall i | 0 < i < |r| ensures r[i] == tail[i - 1] {
      assert bytes[1..][i - 1] == bytes[i];
    }
    assert r == [r[0]] + tail;
  }

  /** A parsing two-character chunk in front of compiling text compiles to its value first. */
  lemma CompileCons(head: string, rest: string)
    requires |head| == 2 && ChunkParses(head)
    requires |rest| > 0 && Compiles(rest)
    ensures Compiles(head + rest)
    ensures Compile(head + rest) == [ChunkValue(head)] + Compile(rest)
  {
    var cleaned := head + rest;
    assert cleaned[..2] == head && cleaned[2..] == rest;
  }

  /** Without its spaces, the text of two or more bytes is the first byte's digits and then the rest's. */
  lemma CleanedFormat(bytes: seq<byte>)
    requires |bytes| > 1
    ensures RemoveSpaces(Format(bytes)) == HexByte(bytes[0]) + RemoveSpaces(Format(bytes[1..]))
  {
    var head, tail := HexByte(bytes[0]), Format(bytes[1..]);
    assert Format(bytes) == (head + " ") + tail;
    HexByteParses(bytes[0]);
    assert " "[1..] == [];
    assert RemoveSpaces(" ") == "";
    RemoveSpacesAppend(head, " ");
    assert RemoveSpaces(head + " ") == head + "" == head;
    RemoveSpacesAppend(head + " ", tail);
  }

  /** A hex digit in lower case: 'A'..'F' become 'a'..'f', the rest stay. */
  function ToLower(c: char): (r: char)
    requires IsHexDigit(c)
    ensures IsHexDigit(r) && !('A' <= r <= 'F')
    ensures DigitValue(r) == DigitValue(c)
  {
    if 'A' <= c <= 'F' then (c as int - 'A' as int + 'a' as int) as char else c
  }

  /** Two hex digits compile to one value: 16 times the first plus the second. */
  lemma HexPairValue(pair: string)
    requires |pair| == 2 && IsHexDigit(pair[0]) && IsHexDigit(pair[1])
    ensures WellFormed(pair) && ToBytes(pair) == [16 * DigitValue(pair[0]) + DigitValue(pair[1])]
  {
    assert RemoveSpaces(pair[1..]) == pair[1..];
    assert RemoveSpaces(pair) == pair;
    assert pair[0] != '?' && pair[1] != '?';
  }

  /**
   * `from_str_radix` ignores the case of hex digits: a pair of digits
   * compiles to the same byte whether written in upper or lower case.
   */
  lemma DigitCaseIgnored(hi: char, lo: char)
    requires IsHexDigit(hi) && IsHexDigit(lo)
    ensures WellFormed([hi, lo]) && WellFormed([ToLower(hi), ToLower(lo)])
    ensures ToBytes([ToLower(hi), ToLower(lo)]) == ToBytes([hi, lo]) == [16 * DigitValue(hi) + DigitValue(lo)]
  {
    HexPairValue([hi, lo]);
    HexPairValue([ToLower(hi), ToLower(lo)]);
  }

  /** A literal "CC" and a wildcard "??" compile to the same value. */
  lemma LiteralCCIsWildcard()
    ensures WellFormed("CC") && WellFormed("??")
    ensures ToBytes("CC") == ToBytes("??") == [WILDCARD]
  {
    assert RemoveSpaces("CC") == "CC";
    assert RemoveSpaces("??") == "??";
    assert '?' in "??";
    assert '?' !in "CC";
  }
}
