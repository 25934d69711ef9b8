/**
 * The description of a trail (ArrowTrail.toString): figure name, bone name,
 * first and last frame, separated by " - ". The frames are stored as Java
 * doubles, so they print the way Double.toString prints a whole number.
 */
module Text {

  predicate IsDigit(c: char)
  {
    '0' <= c <= '9'
  }

  function DigitValue(c: char): nat
    requires IsDigit(c)
  {
    (c as int) - ('0' as int)
  }

  function DigitChar(d: int): (c: char)
    requires 0 <= d < 10
    ensures IsDigit(c) && DigitValue(c) == d
  {
    "0123456789"[d]
  }

  /** The decimal digits of `n`, without leading zeros ("0" for zero). */
  function NatDigits(n: nat): (s: string)
    ensures |s| >= 1
    ensures forall i :: 0 <= i < |s| ==> IsDigit(s[i])
    ensures |s| > 1 ==> s[0] != '0'
    decreases n
  {
    if n < 10 then [DigitChar(n)] else NatDigits(n / 10) + [DigitChar(n % 10)]
  }

  /** The number a string of decimal digits denotes. */
  function ParseNat(s: string): nat
    requires forall i :: 0 <= i < |s| ==> IsDigit(s[i])
  {
    if s == [] then 0
    else ParseNat(s[..|s| - 1]) * 10 + DigitValue(s[|s| - 1])
  }

  /** Reading back the digits of `n` gives `n`. */
  lemma {:induction false} ParseNatDigits(n: nat)
    ensures ParseNat(NatDigits(n)) == n
    decreases n
  {
    var s := NatDigits(n);
    if n >= 10 {
      ParseNatDigits(n / 10);
      assert s[..|s| - 1] == NatDigits(n / 10);
    } else {
      assert s[..0] == [];
    }
  }

  /** `s` without its trailing '0' characters. */
  function DropTrailingZeros(s: string): (r: string)
    ensures |r| <= |s| && r == s[..|r|]
    ensures r != [] ==> r[|r| - 1] != '0'
    ensures forall i :: |r| <= i < |s| ==> s[i] == '0'
  {
    if s == [] || s[|s| - 1] != '0' then s else DropTrailingZeros(s[..|s| - 1])
  }

  /**
   * Double.toString of the whole number `n`: plain notation with ".0" below
   * ten million in magnitude, computerized scientific notation
   * ("1.2345678E7") from there on.
   */
  function JavaDoubleText(n: int): (s: string)
    ensures |s| >= 3
    ensures forall i :: 0 <= i < |s| ==> s[i] != ' '
  {
    var sign := if n < 0 then "-" else "";
    var magnitude: nat := if n < 0 then -n else n;
    var digits := NatDigits(magnitude);
    if magnitude < 10000000 then
      sign + digits + ".0"
    else
      var fraction := DropTrailingZeros(digits[1..]);
      sign + digits[..1] + "." + (if fraction == [] then "0" else fraction) + "E" + NatDigits(|digits| - 1)
  }

  /** toString of a trail: `fig + " - " + bone + " - " + start + " - " + end`. */
  function Description(figureName: string, boneName: string, startFrame: int, endFrame: int): string
  {
    figureName + " - " + boneName + " - " + JavaDoubleText(startFrame) + " - " + JavaDoubleText(endFrame)
  }

  /** The description of a trail for frames 0 to 10 of bone RightHand of figure Actor1. */
  lemma DescriptionOfExample()
    ensures Description("Actor1", "RightHand", 0, 10) == "Actor1 - RightHand - 0.0 - 10.0"
  {
    assert NatDigits(0) == "0";
    assert NatDigits(10) == NatDigits(1) + "0";
  }

  /** Frames under ten million in magnitude print to different texts. */
  lemma PlainTextInjective(a: int, b: int)
    requires -10000000 < a < 10000000 && -10000000 < b < 10000000
    requires JavaDoubleText(a) == JavaDoubleText(b)
    ensures a == b
  {
    var ma: nat := if a < 0 then -a else a;
    var mb: nat := if b < 0 then -b else b;
    var ta, tb := JavaDoubleText(a), JavaDoubleText(b);
    var da, db := NatDigits(ma), NatDigits(mb);
    assert (a < 0) == (ta[0] == '-');
    assert (b < 0) == (tb[0] == '-');
    if a < 0 {
      assert ta == "-" + da + ".0" && tb == "-" + db + ".0";
      assert da == ta[1..|ta| - 2] && db == tb[1..|tb| - 2];
    } else {
      assert ta == da + ".0" && tb == db + ".0";
      assert da == ta[..|ta| - 2] && db == tb[..|tb| - 2];
    }
    ParseNatDigits(ma);
    ParseNatDigits(mb);
  }

  /**
   * Two texts without spaces, each followed by " - " and something, can only
   * make the same string if the texts and the rests are the same.
   */
  lemma SplitAtSeparator(a: string, b: string, c: string, d: string)
    requires forall i :: 0 <= i < |a| ==> a[i] != ' '
    requires forall i :: 0 <= i < |c| ==> c[i] != ' '
    requires a + " - " + b == c + " - " + d
    ensures a == c && b == d
  {
    var s := a + " - " + b;
    assert s[|a|] == ' ';
    assert s[|c|] == ' ';
    assert |a| == |c|;
    assert a == s[..|a|] == c;
    assert b == s[|a| + 3..] == d;
  }

  /** Strings that agree after the same prefix agree. */
  lemma DropPrefix(p: string, r1: string, r2: string)
    requires p + r1 == p + r2
    ensures r1 == r2
  {
    assert r1 == (p + r1)[|p|..];
    assert r2 == (p + r2)[|p|..];
  }

  /**
   * For one figure and bone, the description tells the frame range apart
   * (frames under ten million in magnitude), so removal by description
   * picks out a trail by its range.
   */
  lemma DescriptionDeterminesRange(fig: string, bone: string, s1: int, e1: int, s2: int, e2: int)
    requires -10000000 < s1 < 10000000 && -10000000 < e1 < 10000000
    requires -10000000 < s2 < 10000000 && -10000000 < e2 < 10000000
    requires Description(fig, bone, s1, e1) == Description(fig, bone, s2, e2)
    ensures s1 == s2 && e1 == e2
  {
    var prefix := fig + " - " + bone + " - ";
    var a, b, c, d := JavaDoubleText(s1), JavaDoubleText(e1), JavaDoubleText(s2), JavaDoubleText(e2);
    assert Description(fig, bone, s1, e1) == prefix + (a + " - " + b);
    assert Description(fig, bone, s2, e2) == prefix + (c + " - " + d);
    DropPrefix(prefix, a + " - " + b, c + " - " + d);
    SplitAtSeparator(a, b, c, d);
    PlainTextInjective(s1, s2);
    PlainTextInjective(e1, e2);
  }
}
