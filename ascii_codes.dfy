/**
  Conversion between US-ASCII (ANSI X3.4) code points 0-127 and one-character strings,
  and the file names under which the glyph of each code is stored.

  Both conversions are dynamically typed in the source: the argument is any Python value
  (`PyValue`), and a refusal is not raised but returned as a message string, which the
  model keeps apart from a successful result as `Err(Refused(message, argument))`.
 */
module AsciiCodes {
  import opened Wrappers
  import opened Dicts
  import opened GlyphIndex

  /** The Python values the checks tell apart; `bool` is a subclass of `int`. */
  datatype PyValue = IntValue(i: int) | BoolValue(b: bool) | StrValue(s: string) | OtherValue

  /** The returned error message (without the formatted argument) and the argument. */
  datatype Refusal = Refused(message: string, got: PyValue)

  const CharRangeMessage := "Error: Number must be between 0 and 127, got "
  const SingleCharMessage := "Error: Input must be a single character string, got "
  const AsciiCharMessage := "Error: Character must be an ASCII character (0-127), got "

  /** `isinstance(v, int)`. */
  predicate IsInt(v: PyValue) {
    v.IntValue? || v.BoolValue?
  }

  /** The integer an `int` (or `bool`) value stands for. */
  function IntOf(v: PyValue): int
    requires IsInt(v)
  {
    match v
    case IntValue(i) => i
    case BoolValue(b) => if b then 1 else 0
  }

  /** `get_ascii_char`: `chr(number)` for an integer in 0..127, a refusal otherwise. */
  function GetAsciiChar(v: PyValue): (r: Result<char, Refusal>)
    ensures r.Ok? <==> IsInt(v) && 0 <= IntOf(v) <= 127
    ensures r.Ok? ==> r.value as int == IntOf(v)
    ensures r.Err? ==> r.error == Refused(CharRangeMessage, v)
  {
    if !IsInt(v) || IntOf(v) < 0 || IntOf(v) > 127 then Err(Refused(CharRangeMessage, v))
    else Ok(IntOf(v) as char)
  }

  /**
    `get_ascii_code`: `ord(character)` for a one-character string whose code is at most
    127; a refusal for anything else, with a message that tells the two cases apart.
   */
  function GetAsciiCode(v: PyValue): (r: Result<int, Refusal>)
    ensures r.Ok? <==> v.StrValue? && |v.s| == 1 && v.s[0] as int <= 127
    ensures r.Ok? ==> r.value == v.s[0] as int && 0 <= r.value <= 127
    ensures r.Err? && v.StrValue? && |v.s| == 1 ==> r.error == Refused(AsciiCharMessage, v)
    ensures r.Err? && !(v.StrValue? && |v.s| == 1) ==> r.error == Refused(SingleCharMessage, v)
  {
    if !v.StrValue? || |v.s| != 1 then Err(Refused(SingleCharMessage, v))
    else
      var code := v.s[0] as int;
      if code < 0 || code > 127 then Err(Refused(AsciiCharMessage, v))
      else Ok(code)
  }

  /** Every code 0..127 survives the trip to a character and back. */
  lemma CodeRoundTrip(n: int)
    requires 0 <= n <= 127
    ensures GetAsciiChar(IntValue(n)).Ok?
    ensures GetAsciiCode(StrValue([GetAsciiChar(IntValue(n)).value])) == Ok(n)
  {
  }

  /** Every ASCII character survives the trip to its code and back. */
  lemma CharRoundTrip(c: char)
    requires c as int <= 127
    ensures GetAsciiCode(StrValue([c])).Ok?
    ensures GetAsciiChar(IntValue(GetAsciiCode(StrValue([c])).value)) == Ok(c)
  {
  }

  /**
    The calls of the unit tests. The out-of-range calls return a refusal rather than
    raising `ValueError`; the non-ASCII argument of the test is the three-character
    mis-decoding of the euro sign, which is refused for its length.
   */
  lemma TestCalls()
    ensures GetAsciiChar(IntValue(65)) == Ok('A') && GetAsciiChar(IntValue(97)) == Ok('a')
    ensures GetAsciiChar(IntValue(48)) == Ok('0') && GetAsciiChar(IntValue(32)) == Ok(' ')
    ensures GetAsciiChar(IntValue(126)) == Ok('~')
    ensures GetAsciiChar(IntValue(200)) == Err(Refused(CharRangeMessage, IntValue(200)))
    ensures GetAsciiCode(StrValue("A")) == Ok(65) && GetAsciiCode(StrValue("~")) == Ok(126)
    ensures GetAsciiCode(StrValue("â‚¬")) == Err(Refused(SingleCharMessage, StrValue("â‚¬")))
    ensures GetAsciiCode(StrValue("€")) == Err(Refused(AsciiCharMessage, StrValue("€")))
  {
  }

  // ---- glyph file names ----

  function Digit(d: nat): char
    requires d < 10
  {
    ('0' as int + d) as char
  }

  predicate IsDigit(c: char) {
    '0' <= c <= '9'
  }

  /** `str(n)` for a non-negative integer. */
  function Decimal(n: nat): (s: string)
    ensures |s| >= 1 && forall i :: 0 <= i < |s| ==> IsDigit(s[i])
    ensures n < 10 ==> |s| == 1
    ensures 10 <= n < 100 ==> |s| == 2
    ensures 100 <= n < 1000 ==> |s| == 3
    ensures n >= 1000 ==> |s| >= 4
  {
    if n < 10 then [Digit(n)] else Decimal(n / 10) + [Digit(n % 10)]
  }

  /** The number a string of decimal digits denotes. */
  function DigitsValue(s: string): nat
    requires forall i :: 0 <= i < |s| ==> IsDigit(s[i])
  {
    if s == [] then 0
    else
      var last := s[|s| - 1];
      assert IsDigit(last);
      DigitsValue(s[..|s| - 1]) * 10 + (last as int - '0' as int)
  }

  /** `Decimal` is undone by reading the digits back. */
  lemma {:induction false} DecimalValue(n: nat)
    ensures DigitsValue(Decimal(n)) == n
  {
    if n >= 10 {
      DecimalValue(n / 10);
      var s := Decimal(n);
      assert s[..|s| - 1] == Decimal(n / 10);
    }
  }

  /** A leading zero does not change the value. */
  lemma {:induction false} LeadingZero(s: string)
    requires forall i :: 0 <= i < |s| ==> IsDigit(s[i])
    ensures DigitsValue("0" + s) == DigitsValue(s)
  {
    if s != [] {
      var init := s[..|s| - 1];
      LeadingZero(init);
      assert ("0" + s)[..|"0" + s| - 1] == "0" + init;
    }
  }

  /** `f"{code:03d}"`: at least three digits, padded with leading zeros. */
  function Pad3(n: nat): (s: string)
    ensures forall i :: 0 <= i < |s| ==> IsDigit(s[i])
    ensures n < 1000 ==> |s| == 3
    ensures n >= 1000 ==> |s| >= 4
  {
    if n < 10 then "00" + Decimal(n)
    else if n < 100 then "0" + Decimal(n)
    else Decimal(n)
  }

  /** The padded digits still denote the code, so distinct codes are padded differently. */
  lemma Pad3Value(n: nat)
    ensures DigitsValue(Pad3(n)) == n
  {
    DecimalValue(n);
    if n < 10 {
      LeadingZero(Decimal(n));
      LeadingZero("0" + Decimal(n));
      assert "00" + Decimal(n) == "0" + ("0" + Decimal(n));
    } else if n < 100 {
      LeadingZero(Decimal(n));
    }
  }

  /** Characters that may not appear in a Windows file name. */
  const Reserved: string := "<>:\"/\\|?*"

  /** The part of the name after the code: `_space`, nothing, or `_` and the character. */
  function Suffix(c: char): (s: string)
    ensures forall i :: 0 <= i < |s| ==> s[i] !in Reserved
  {
    if c == ' ' then "_space"
    else if c in Reserved then ""
    else "_" + [c]
  }

  /**
    Lines 199-205: the file name of the glyph of `code`. It is an image name the current
    glyph indexer picks up, and it holds no character reserved in file names.
   */
  function GlyphFileName(code: nat): (name: string)
    requires code < 0xD800
    ensures |name| >= 6 && name[..6] == "ascii_"
    ensures HasImageExtension(name)
    ensures forall i :: 0 <= i < |name| ==> name[i] !in Reserved
  {
    var name := "ascii_" + Pad3(code) + Suffix(code as char) + ".png";
    assert name[|name| - 4..] == ".png";
    name
  }

  /** The name of the space and of a reserved character. */
  lemma SpecialFileNames()
    ensures GlyphFileName(32) == "ascii_032_space.png"
    ensures GlyphFileName(47) == "ascii_047.png"
  {
    assert Pad3(32) == "032" && Suffix(32 as char) == "_space";
    assert Pad3(47) == "047" && Suffix(47 as char) == "";
  }

  /** The name of any other character carries the character. */
  lemma PlainFileNames()
    ensures GlyphFileName(65) == "ascii_065_A.png"
    ensures GlyphFileName(126) == "ascii_126_~.png"
  {
    assert Pad3(65) == "065" && Suffix(65 as char) == "_A";
    assert Decimal(126) == Decimal(12) + "6" && Decimal(12) == "12";
    assert Pad3(126) == "126" && Suffix(126 as char) == "_~";
  }

  /** The name determines the code: codes below 1000 have pairwise distinct names. */
  lemma GlyphFileNameInjective(c1: nat, c2: nat)
    requires c1 < 1000 && c2 < 1000
    requires GlyphFileName(c1) == GlyphFileName(c2)
    ensures c1 == c2
  {
    assert GlyphFileName(c1)[6..9] == Pad3(c1);
    assert GlyphFileName(c2)[6..9] == Pad3(c2);
    Pad3Value(c1);
    Pad3Value(c2);
  }

  /** `chr(code)` for a negative code raises `ValueError`. */
  datatype GenerationError = NegativeCode(code: int)

  /**
    The loop of `generate_ascii_images` (lines 197-209) without the rendering: one file
    name per code of `start_code..end_code`, in increasing order (by default 32..126).
   */
  method GenerateGlyphNames(startCode: int, endCode: int) returns (r: Result<seq<string>, GenerationError>)
    requires endCode < 0xD800
    ensures r.Err? <==> startCode <= endCode && startCode < 0
    ensures r.Err? ==> r.error == NegativeCode(startCode)
    ensures r.Ok? ==> |r.value| == if endCode < startCode then 0 else endCode - startCode + 1
    ensures r.Ok? ==> forall i :: 0 <= i < |r.value| ==> startCode + i >= 0 && r.value[i] == GlyphFileName(startCode + i)
    ensures r.Ok? ==> forall i :: 0 <= i < |r.value| ==> HasImageExtension(r.value[i])
    ensures r.Ok? && endCode < 1000 ==> Distinct(r.value)
  {
    var names: seq<string> := [];
    if endCode < startCode {
      return Ok(names);
    }
    if startCode < 0 {
      return Err(NegativeCode(startCode));
    }
    for code := startCode to endCode + 1
      invariant |names| == code - startCode
      invariant forall i :: 0 <= i < |names| ==> startCode + i >= 0 && names[i] == GlyphFileName(startCode + i)
      invariant forall i :: 0 <= i < |names| ==> HasImageExtension(names[i])
    {
      names := names + [GlyphFileName(code)];
    }
    if endCode < 1000 {
      forall i, j | 0 <= i < j < |names|
        ensures names[i] != names[j]
      {
        if names[i] == names[j] {
          GlyphFileNameInjective(startCode + i, startCode + j);
        }
      }
    }
    r := Ok(names);
  }
}
