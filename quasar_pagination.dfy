/**
 * The pagination readout parser of test/test-quasar.js: the first `<digits>-<digits> of <digits>`
 * in a Quasar table footer such as "1-10 of 2701", and whether every record is shown.
 *
 * The regular expression `/(\d+)-(\d+) of (\d+)/` is modelled directly: the match starts at the
 * leftmost position where one exists, and each greedy `\d+` takes the longest run of digits
 * (a shorter run would leave a digit where `-`, ` ` or nothing in particular must follow, so
 * backtracking never yields another match from the same start).
 */
module QuasarPagination {
  import opened Wrappers
  import opened Text

  /** The end of the run of digits starting at `i`. */
  function DigitRunEnd(s: string, i: nat): (r: nat)
    requires i <= |s|
    ensures i <= r <= |s|
    ensures AllDigits(s[i..r])
    ensures r == |s| || !IsDigit(s[r])
    decreases |s| - i
  {
    if i < |s| && IsDigit(s[i]) then
      var r := DigitRunEnd(s, i + 1);
      assert s[i..r] == [s[i]] + s[i + 1..r];
      r
    else i
  }

  /** A run of digits from `i` to `j` that is not followed by a digit is the run `DigitRunEnd` finds. */
  lemma {:induction false} DigitRunEndOf(s: string, i: nat, j: nat)
    requires i <= j <= |s|
    requires AllDigits(s[i..j])
    requires j == |s| || !IsDigit(s[j])
    ensures DigitRunEnd(s, i) == j
    decreases j - i
  {
    if i < j {
      assert IsDigit(s[i..j][0]);
      assert s[i + 1..j] == s[i..j][1..];
      DigitRunEndOf(s, i + 1, j);
    }
  }

  /** The three captured numbers, `parseInt` of each capture. */
  datatype Captures = Captures(start: nat, showing: nat, total: nat)

  /** The match of the pattern starting exactly at `p`, if there is one. */
  function MatchAt(s: string, p: nat): Option<Captures>
    requires p <= |s|
  {
    var e1 := DigitRunEnd(s, p);
    if e1 == p || e1 == |s| || s[e1] != '-' then None
    else
      var p2 := e1 + 1;
      var e2 := DigitRunEnd(s, p2);
      if e2 == p2 || !StartsWith(s[e2..], " of ") then None
      else
        var p3 := e2 + 4;
        var e3 := DigitRunEnd(s, p3);
        if e3 == p3 then None
        else Some(Captures(DecimalValue(s[p..e1]), DecimalValue(s[p2..e2]), DecimalValue(s[p3..e3])))
  }

  /** The match the pattern has at each start position `0..|s|`, in order. */
  function Candidates(s: string): (ms: seq<Option<Captures>>)
    ensures |ms| == |s| + 1
  {
    seq(|s| + 1, q requires 0 <= q <= |s| => MatchAt(s, q))
  }

  /** The first position at or after `p` whose candidate is a match, with that match. */
  function FirstSome(ms: seq<Option<Captures>>, p: nat): (r: Option<(nat, Captures)>)
    requires p <= |ms|
    ensures r.Some? ==> p <= r.value.0 < |ms| && ms[r.value.0] == Some(r.value.1)
    decreases |ms| - p
  {
    if p == |ms| then None
    else match ms[p]
      case Some(c) => Some((p, c))
      case None => FirstSome(ms, p + 1)
  }

  /** The first position holding a match is found, and none is found exactly when there is none. */
  lemma {:induction false} FirstSomeLeftmost(ms: seq<Option<Captures>>, p: nat)
    requires p <= |ms|
    ensures FirstSome(ms, p).None? <==> forall q :: p <= q < |ms| ==> ms[q].None?
    ensures FirstSome(ms, p).Some? ==> forall q :: p <= q < FirstSome(ms, p).value.0 ==> ms[q].None?
    decreases |ms| - p
  {
    if p < |ms| && ms[p].None? {
      FirstSomeLeftmost(ms, p + 1);
      forall q | p <= q < |ms| && ms[q].Some?
        ensures p + 1 <= q
      {
      }
    }
  }

  /** The leftmost match at or after `p`: the regular expression tries each start in turn. */
  function FirstMatch(s: string, p: nat): (r: Option<(nat, Captures)>)
    requires p <= |s|
    ensures r.Some? ==> p <= r.value.0 <= |s| && MatchAt(s, r.value.0) == Some(r.value.1)
  {
    FirstSome(Candidates(s), p)
  }

  /** The scan finds nothing exactly when no position matches, and otherwise finds the leftmost match. */
  lemma FirstMatchIsLeftmost(s: string, p: nat)
    requires p <= |s|
    ensures FirstMatch(s, p).None? <==> forall q :: p <= q <= |s| ==> MatchAt(s, q).None?
    ensures FirstMatch(s, p).Some? ==> forall q :: p <= q < FirstMatch(s, p).value.0 ==> MatchAt(s, q).None?
  {
    var ms := Candidates(s);
    FirstSomeLeftmost(ms, p);
    forall q | p <= q <= |s|
      ensures ms[q] == MatchAt(s, q)
    {
    }
  }

  /** What `parseQuasarPagination` returns for a match. */
  datatype Pagination = Pagination(start: nat, showing: nat, total: nat, isComplete: bool)

  /**
   * `parseQuasarPagination(text)`: `null` when nothing matches; otherwise the three numbers of
   * the leftmost match, complete when at least as many records are shown as exist.
   */
  function ParseQuasarPagination(text: string): (r: Option<Pagination>)
    ensures r.None? <==> forall p :: 0 <= p <= |text| ==> MatchAt(text, p).None?
    ensures r.Some? ==> exists p :: 0 <= p <= |text| && FirstMatchIs(text, p, r.value)
    ensures r.Some? ==> (r.value.isComplete <==> r.value.showing >= r.value.total)
  {
    FirstMatchIsLeftmost(text, 0);
    match FirstMatch(text, 0)
    case None => None
    case Some((p, c)) =>
      var r := Pagination(c.start, c.showing, c.total, c.showing >= c.total);
      assert FirstMatchIs(text, p, r);
      Some(r)
  }

  /** The match at `p` carries the numbers of `r`, and no match starts before `p`. */
  ghost predicate FirstMatchIs(text: string, p: nat, r: Pagination)
    requires p <= |text|
  {
    && MatchAt(text, p) == Some(Captures(r.start, r.showing, r.total))
    && forall q :: 0 <= q < p ==> MatchAt(text, q).None?
  }

  /** Digit runs at the right places around `-` and ` of ` make a match at 0. */
  lemma MatchAtStart(s: string, e1: nat, e2: nat, e3: nat)
    requires 0 < e1 && e1 + 1 < e2 && e2 + 4 < e3 <= |s|
    requires AllDigits(s[..e1]) && AllDigits(s[e1 + 1..e2]) && AllDigits(s[e2 + 4..e3])
    requires s[e1] == '-' && s[e2..e2 + 4] == " of "
    requires e3 == |s| || !IsDigit(s[e3])
    ensures MatchAt(s, 0) == Some(Captures(DecimalValue(s[..e1]), DecimalValue(s[e1 + 1..e2]), DecimalValue(s[e2 + 4..e3])))
  {
    assert s[0..e1] == s[..e1];
    DigitRunEndOf(s, 0, e1);
    DigitRunEndOf(s, e1 + 1, e2);
    assert s[e2..][..4] == s[e2..e2 + 4];
    DigitRunEndOf(s, e2 + 4, e3);
  }

  /**
   * A readout `a-b of c`, where `a`, `b`, `c` are runs of digits and no digit follows `c`, parses
   * to the values of those runs.
   */
  lemma ParseReadout(a: string, b: string, c: string, rest: string)
    requires |a| >= 1 && |b| >= 1 && |c| >= 1
    requires AllDigits(a) && AllDigits(b) && AllDigits(c)
    requires rest == [] || !IsDigit(rest[0])
    ensures var r := ParseQuasarPagination(a + "-" + b + " of " + c + rest);
      && r.Some?
      && r.value.start == DecimalValue(a)
      && r.value.showing == DecimalValue(b)
      && r.value.total == DecimalValue(c)
      && (r.value.isComplete <==> DecimalValue(b) >= DecimalValue(c))
  {
    ReadoutMatch(a, b, c, rest);
    ParseAtStart(a + "-" + b + " of " + c + rest, Captures(DecimalValue(a), DecimalValue(b), DecimalValue(c)));
  }

  /** The readout `a-b of c` matches at its first character. */
  lemma ReadoutMatch(a: string, b: string, c: string, rest: string)
    requires |a| >= 1 && |b| >= 1 && |c| >= 1
    requires AllDigits(a) && AllDigits(b) && AllDigits(c)
    requires rest == [] || !IsDigit(rest[0])
    ensures MatchAt(a + "-" + b + " of " + c + rest, 0) == Some(Captures(DecimalValue(a), DecimalValue(b), DecimalValue(c)))
  {
    var s := a + "-" + b + " of " + c + rest;
    var e1 := |a|;
    var e2 := e1 + 1 + |b|;
    var e3 := e2 + 4 + |c|;
    assert && e3 <= |s| && s[..e1] == a && s[e1] == '-' && s[e1 + 1..e2] == b
           && s[e2..e2 + 4] == " of " && s[e2 + 4..e3] == c && (e3 == |s| || !IsDigit(s[e3])) by {
      ReadoutPieces(a, b, c, rest);
    }
    MatchAtStart(s, e1, e2, e3);
  }

  /** A match at the very start is the one the parser reports. */
  lemma ParseAtStart(s: string, caps: Captures)
    requires MatchAt(s, 0) == Some(caps)
    ensures ParseQuasarPagination(s) == Some(Pagination(caps.start, caps.showing, caps.total, caps.showing >= caps.total))
  {
    assert Candidates(s)[0] == Some(caps);
    assert FirstMatch(s, 0) == Some((0, caps));
  }

  /** Where the pieces of a readout sit in the joined text. */
  lemma ReadoutPieces(a: string, b: string, c: string, rest: string)
    requires rest == [] || !IsDigit(rest[0])
    ensures var s := a + "-" + b + " of " + c + rest;
      var e1 := |a|;
      var e2 := e1 + 1 + |b|;
      var e3 := e2 + 4 + |c|;
      && |s| == e3 + |rest|
      && s[..e1] == a && s[e1] == '-' && s[e1 + 1..e2] == b
      && s[e2..e2 + 4] == " of " && s[e2 + 4..e3] == c
      && (e3 == |s| || !IsDigit(s[e3]))
  {
    var s := a + "-" + b + " of " + c + rest;
    var e1 := |a|;
    var e2 := e1 + 1 + |b|;
    var e3 := e2 + 4 + |c|;
    assert s[..e1] == a;
    assert s[e1 + 1..e2] == b;
    assert s[e2..e2 + 4] == " of ";
    assert s[e2 + 4..e3] == c;
    assert e3 == |s| || s[e3] == rest[0];
  }

  /** A footer without any digit never parses. */
  lemma NoDigitsNoReadout(text: string)
    requires forall i :: 0 <= i < |text| ==> !IsDigit(text[i])
    ensures ParseQuasarPagination(text).None?
  {
    forall p | 0 <= p <= |text|
      ensures MatchAt(text, p).None?
    {
      assert DigitRunEnd(text, p) == p;
    }
  }

  lemma Value1() ensures DecimalValue("1") == 1 {}
  lemma Value10() ensures DecimalValue("10") == 10 { assert "10"[..1] == "1"; }
  lemma Value100() ensures DecimalValue("100") == 100 { assert "100"[..2] == "10"; Value10(); }
  lemma Value2701() ensures DecimalValue("2701") == 2701
  {
    assert "2701"[..3] == "270";
    assert "270"[..2] == "27";
    assert "27"[..1] == "2";
  }

  lemma FirstFooterText()
    ensures "1" + "-" + "10" + " of " + "2701" + "" == "1-10 of 2701"
  {
  }

  /** "1-10 of 2701": ten of 2701 records shown, not complete. */
  lemma FirstFooter()
    ensures ParseQuasarPagination("1-10 of 2701") == Some(Pagination(1, 10, 2701, false))
  {
    ParseReadout("1", "10", "2701", "");
    FirstFooterText();
    Value1();
    Value10();
    Value2701();
  }

  lemma FullFooterText()
    ensures "1" + "-" + "2701" + " of " + "2701" + "" == "1-2701 of 2701"
  {
  }

  /** "1-2701 of 2701": every record shown, complete. */
  lemma FullFooter()
    ensures ParseQuasarPagination("1-2701 of 2701") == Some(Pagination(1, 2701, 2701, true))
  {
    ParseReadout("1", "2701", "2701", "");
    FullFooterText();
    Value1();
    Value2701();
  }

  lemma HundredFooterText()
    ensures "1" + "-" + "100" + " of " + "100" + "" == "1-100 of 100"
  {
  }

  /** "1-100 of 100": complete. */
  lemma HundredFooter()
    ensures ParseQuasarPagination("1-100 of 100") == Some(Pagination(1, 100, 100, true))
  {
    ParseReadout("1", "100", "100", "");
    HundredFooterText();
    Value1();
    Value100();
  }
}
