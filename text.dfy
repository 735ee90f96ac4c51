/**
 * String primitives shared by the encoder, the page-size ranking and the test helpers:
 * `String.prototype.includes`, ASCII case folding, `replace(/\D/g, '')` and `parseInt`.
 */
module Text {
  import opened Wrappers

  /** `s.startsWith(p)`. */
  predicate StartsWith(s: string, p: string) {
    |p| <= |s| && s[..|p|] == p
  }

  /** `sub` occurs in `s` starting at index `i`. */
  ghost predicate OccursAt(s: string, sub: string, i: int) {
    0 <= i && i + |sub| <= |s| && s[i..i + |sub|] == sub
  }

  /** `s.includes(sub)`, written as a scan so that it can be evaluated. */
  function Contains(s: string, sub: string): bool
    decreases |s|
  {
    StartsWith(s, sub) || (|s| > 0 && Contains(s[1..], sub))
  }

  /** The scan agrees with the positional reading of `includes`. */
  lemma {:induction false} ContainsIffOccurs(s: string, sub: string)
    ensures Contains(s, sub) <==> exists i :: OccursAt(s, sub, i)
    decreases |s|
  {
    if StartsWith(s, sub) {
      assert OccursAt(s, sub, 0);
    } else if |s| == 0 {
      assert |sub| > 0;
    } else {
      ContainsIffOccurs(s[1..], sub);
      if Contains(s[1..], sub) {
        var i :| OccursAt(s[1..], sub, i);
        SliceOfTail(s, i + 1, |sub|);
        assert OccursAt(s, sub, i + 1);
      } else {
        forall i ensures !OccursAt(s, sub, i) {
          if i == 0 && |sub| <= |s| {
            assert s[0..|sub|] == s[..|sub|];
          } else if 1 <= i && i + |sub| <= |s| {
            SliceOfTail(s, i, |sub|);
            assert !OccursAt(s[1..], sub, i - 1);
          }
        }
      }
    }
  }

  lemma SliceOfTail(s: string, i: int, n: nat)
    requires 1 <= i && i + n <= |s|
    ensures s[1..][i - 1..i - 1 + n] == s[i..i + n]
  {
  }

  /** For a one-character needle, `includes` is sequence membership. */
  lemma {:induction false} ContainsChar(s: string, c: char)
    ensures Contains(s, [c]) <==> c in s
    decreases |s|
  {
    if |s| > 0 {
      ContainsChar(s[1..], c);
      assert s == [s[0]] + s[1..];
    }
  }

  /** `s.includes('')` holds for every `s`. */
  lemma ContainsEmpty(s: string)
    ensures Contains(s, "")
  {
    assert s[..0] == "";
  }

  /** Lower-casing of one character, on ASCII letters only. */
  function AsciiLower(c: char): char {
    if 'A' <= c <= 'Z' then (c as int + 32) as char else c
  }

  /** `s.toLowerCase()` on ASCII letters. */
  function LowerAscii(s: string): (r: string)
    ensures |r| == |s|
  {
    seq(|s|, i requires 0 <= i < |s| => AsciiLower(s[i]))
  }

  /**
   * What lower-casing means: no upper-case ASCII letter is left, each upper-case letter becomes its
   * lower-case partner, every other character is kept, and lower-casing again changes nothing.
   */
  lemma LowerAsciiSpec(s: string)
    ensures forall i :: 0 <= i < |s| ==> !('A' <= LowerAscii(s)[i] <= 'Z')
    ensures forall i :: 0 <= i < |s| ==>
      if 'A' <= s[i] <= 'Z' then 'a' <= LowerAscii(s)[i] <= 'z' && LowerAscii(s)[i] as int - s[i] as int == 32
      else LowerAscii(s)[i] == s[i]
    ensures LowerAscii(LowerAscii(s)) == LowerAscii(s)
  {
  }

  /** The letters the case-insensitive pattern `/all/i` accepts at each position. */
  predicate IsLetterA(c: char) { c == 'a' || c == 'A' }
  predicate IsLetterL(c: char) { c == 'l' || c == 'L' }

  /**
   * `/all/i.test(s)`: three consecutive characters spell "all" in any letter case, anywhere
   * (so "Small" and "Allow" match too).
   */
  predicate MentionsAll(s: string)
    decreases |s|
  {
    |s| >= 3 && ((IsLetterA(s[0]) && IsLetterL(s[1]) && IsLetterL(s[2])) || MentionsAll(s[1..]))
  }

  /** The pattern `/all/i` matches `s` at index `i`. */
  ghost predicate AllAt(s: string, i: int) {
    0 <= i && i + 3 <= |s| && IsLetterA(s[i]) && IsLetterL(s[i + 1]) && IsLetterL(s[i + 2])
  }

  lemma AllAtLower(s: string, i: int)
    requires 0 <= i && i + 3 <= |s|
    ensures AllAt(s, i) <==> OccursAt(LowerAscii(s), "all", i)
  {
    var low := LowerAscii(s);
    assert low[i..i + 3] == [low[i], low[i + 1], low[i + 2]];
  }

  /** The scan finds "all" exactly when the pattern matches at some index. */
  lemma {:induction false} MentionsAllAt(s: string)
    ensures MentionsAll(s) <==> exists i :: AllAt(s, i)
    decreases |s|
  {
    if |s| >= 3 {
      MentionsAllAt(s[1..]);
      if MentionsAll(s[1..]) {
        var i :| AllAt(s[1..], i);
        assert AllAt(s, i + 1);
      }
      if exists i :: AllAt(s, i) {
        var i :| AllAt(s, i);
        if i > 0 {
          assert AllAt(s[1..], i - 1);
        }
      }
      if IsLetterA(s[0]) && IsLetterL(s[1]) && IsLetterL(s[2]) {
        assert AllAt(s, 0);
      }
    }
  }

  /** `/all/i.test(s)` and `s.toLowerCase().includes('all')` are the same test. */
  lemma MentionsAllLower(s: string)
    ensures MentionsAll(s) <==> Contains(LowerAscii(s), "all")
  {
    var low := LowerAscii(s);
    MentionsAllAt(s);
    ContainsIffOccurs(low, "all");
    if MentionsAll(s) {
      var i :| AllAt(s, i);
      AllAtLower(s, i);
    }
    if Contains(low, "all") {
      var i :| OccursAt(low, "all", i);
      AllAtLower(s, i);
    }
  }

  predicate IsDigit(c: char) { '0' <= c <= '9' }

  predicate AllDigits(s: string) {
    forall i :: 0 <= i < |s| ==> IsDigit(s[i])
  }

  /** `s.replace(/\D/g, '')`: the decimal digits of `s`, in order. */
  function DigitsOf(s: string): (r: string)
    ensures AllDigits(r)
    ensures |r| <= |s|
  {
    if s == [] then [] else (if IsDigit(s[0]) then [s[0]] else []) + DigitsOf(s[1..])
  }

  /** Stripping non-digits leaves nothing exactly when `s` has no digit. */
  lemma {:induction false} DigitsOfEmpty(s: string)
    ensures DigitsOf(s) == [] <==> forall i :: 0 <= i < |s| ==> !IsDigit(s[i])
  {
    if s != [] {
      DigitsOfEmpty(s[1..]);
      assert forall i :: 1 <= i < |s| ==> s[i] == s[1..][i - 1];
    }
  }

  /** A string of digits is its own digit string. */
  lemma {:induction false} DigitsOfDigits(s: string)
    requires AllDigits(s)
    ensures DigitsOf(s) == s
  {
    if s != [] {
      DigitsOfDigits(s[1..]);
    }
  }

  /** Stripping works character by character: every digit is kept, in its order. */
  lemma {:induction false} DigitsOfAppend(a: string, b: string)
    ensures DigitsOf(a + b) == DigitsOf(a) + DigitsOf(b)
  {
    if a == [] {
      assert a + b == b;
    } else {
      assert (a + b)[0] == a[0] && (a + b)[1..] == a[1..] + b;
      DigitsOfAppend(a[1..], b);
    }
  }

  function DigitValue(c: char): nat {
    if IsDigit(c) then c as int - '0' as int else 0
  }

  function DigitChar(d: nat): char
    requires d < 10
  {
    ('0' as int + d) as char
  }

  /** The number a digit string denotes in base 10 (`parseInt(ds, 10)` for `ds != ""`). */
  function DecimalValue(ds: string): nat {
    if ds == [] then 0 else 10 * DecimalValue(ds[..|ds| - 1]) + DigitValue(ds[|ds| - 1])
  }

  /** `parseInt(text.replace(/\D/g, ''), 10)`, with `NaN` as `None`. */
  function ParseDigits(text: string): Option<nat> {
    var ds := DigitsOf(text);
    if ds == [] then None else Some(DecimalValue(ds))
  }

  /** A grouped option text such as "1,000" is read as one number, not as its first digit run. */
  lemma ThousandsSeparatorIgnored()
    ensures ParseDigits("1,000") == Some(1000)
  {
    assert DigitsOf("1,000") == "1000" by {
      GroupedDigits();
    }
    assert DecimalValue("1000") == 1000 by {
      ThousandValue();
    }
  }

  lemma GroupedDigits()
    ensures DigitsOf("1,000") == "1000"
  {
    assert "1,000" == "1," + "000";
    DigitsOfAppend("1,", "000");
    DigitsOfDigits("000");
    assert DigitsOf("1,") == "1";
  }

  lemma ThousandValue()
    ensures DecimalValue("1000") == 1000
  {
    assert "1000"[..3] == "100";
    assert "100"[..2] == "10";
    assert "10"[..1] == "1";
    assert DecimalValue("1") == 1;
  }

  /** The decimal notation of `n`, as `String(n)` writes it. */
  function NatToDecimal(n: nat): (r: string)
    ensures |r| >= 1 && AllDigits(r)
  {
    if n < 10 then [DigitChar(n)] else NatToDecimal(n / 10) + [DigitChar(n % 10)]
  }

  /** Reading back the decimal notation of `n` gives `n`. */
  lemma {:induction false} DecimalRoundTrip(n: nat)
    ensures DecimalValue(NatToDecimal(n)) == n
  {
    if n >= 10 {
      DecimalRoundTrip(n / 10);
      var r := NatToDecimal(n);
      assert r[..|r| - 1] == NatToDecimal(n / 10);
    }
  }
}
