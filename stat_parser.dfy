/**
 * The statistics-line parser: the loop in `gatherStats` that reads the
 * output of `systemd-resolve --statistics` line by line and records every
 * line that looks like `Name: number` in a map from name to value.
 */
module StatParser {
  import opened Text

  // ---------------------------------------------------------------------------
  // Recognising a statistics line: the pattern `[a-zA-Z ]+: ?[0-9]+`
  // ---------------------------------------------------------------------------

  /** The character class `[a-zA-Z ]`. */
  predicate IsNameChar(c: char) {
    'a' <= c <= 'z' || 'A' <= c <= 'Z' || c == ' '
  }

  predicate AllNameChars(s: string) {
    forall i :: 0 <= i < |s| ==> IsNameChar(s[i])
  }

  /** `t` is a word of ` ?[0-9]+`. */
  predicate IsDigitsTail(t: string) {
    (t != [] && AllDigits(t)) || (|t| >= 2 && t[0] == ' ' && AllDigits(t[1..]))
  }

  /** `w` is a word of the regular expression `[a-zA-Z ]+: ?[0-9]+`. */
  ghost predicate IsStatToken(w: string) {
    exists p :: 0 < p < |w| && w[p] == ':' && AllNameChars(w[..p]) && IsDigitsTail(w[p + 1..])
  }

  /**
   * Some piece of `l` is a word of the pattern. The search is unanchored:
   * text may stand before and after the match.
   */
  ghost predicate ContainsStatToken(l: string) {
    exists i, j :: 0 <= i <= j <= |l| && IsStatToken(l[i..j])
  }

  /** After the colon at `p` comes a digit, directly or after one space. */
  predicate DigitFollows(l: string, p: nat)
    requires p < |l|
  {
    || (p + 1 < |l| && IsDigit(l[p + 1]))
    || (p + 2 < |l| && l[p + 1] == ' ' && IsDigit(l[p + 2]))
  }

  /**
   * A match of the pattern is anchored at the colon `l[p]`: a letter or space
   * just before it and a digit just after it, or just after one space.
   */
  predicate MatchAt(l: string, p: nat) {
    1 <= p < |l| && l[p] == ':' && IsNameChar(l[p - 1]) && DigitFollows(l, p)
  }

  /** The regular-expression test of the parser, `statusLineRegex.Match`. */
  predicate MatchesStatLine(l: string) {
    exists p: nat | p < |l| :: MatchAt(l, p)
  }

  /** Every line the local test accepts contains a word of the pattern. */
  lemma MatchImpliesToken(l: string)
    requires MatchesStatLine(l)
    ensures ContainsStatToken(l)
  {
    var p: nat :| p < |l| && MatchAt(l, p);
    var j := if p + 1 < |l| && IsDigit(l[p + 1]) then p + 2 else p + 3;
    var t := if j == p + 2 then [l[p + 1]] else [' ', l[p + 2]];
    assert IsDigitsTail(t) by {
      if j == p + 2 {
        assert AllDigits(t);
      } else {
        assert t[1..] == [l[p + 2]];
      }
    }
    var w := [l[p - 1], ':'] + t;
    assert w[..1] == [l[p - 1]] && w[2..] == t;
    assert w == l[p - 1..j];
    assert IsStatToken(w);
  }

  /** Every line that contains a word of the pattern passes the local test. */
  lemma TokenImpliesMatch(l: string)
    requires ContainsStatToken(l)
    ensures MatchesStatLine(l)
  {
    var i, j :| 0 <= i <= j <= |l| && IsStatToken(l[i..j]);
    var w := l[i..j];
    var q :| 0 < q < |w| && w[q] == ':' && AllNameChars(w[..q]) && IsDigitsTail(w[q + 1..]);
    assert w[..q][q - 1] == l[i + q - 1];
    assert w[q + 1..][0] == l[i + q + 1];
    assert |w[q + 1..]| >= 2 ==> w[q + 1..][1] == l[i + q + 2];
    assert MatchAt(l, i + q);
  }

  /** The local test finds exactly the lines that contain a word of the pattern. */
  lemma MatchesStatLineIsSearch(l: string)
    ensures MatchesStatLine(l) <==> ContainsStatToken(l)
  {
    if MatchesStatLine(l) {
      MatchImpliesToken(l);
    }
    if ContainsStatToken(l) {
      TokenImpliesMatch(l);
    }
  }

  /** A matched line holds a colon, so splitting it on `:` gives at least two fields. */
  lemma MatchedLineSplits(l: string)
    requires MatchesStatLine(l)
    ensures |Split(l, ':')| >= 2
  {
    var p: nat :| p < |l| && MatchAt(l, p);
    SplitAtSeparator(l, ':', p);
  }

  // ---------------------------------------------------------------------------
  // Splitting a statistics line into name and value
  // ---------------------------------------------------------------------------

  datatype Stat = Stat(name: string, value: nat)

  /**
   * The stand-in for `v, _ := strconv.ParseFloat(s, 64)`: the error is
   * dropped, so text that is not a number reads as 0.
   */
  function ParsedValue(s: string): nat {
    match ParseDecimal(s)
    case Some(n) => n
    case None => 0
  }

  /** Parsing a rendered number gives it back; anything else reads as 0. */
  lemma ParsedValueCases(s: string)
    ensures forall n: nat :: s == ShowDecimal(n) ==> ParsedValue(s) == n
    ensures !(s != [] && AllDigits(s)) ==> ParsedValue(s) == 0
  {
    forall n: nat | s == ShowDecimal(n) ensures ParsedValue(s) == n {
      ParseShowDecimal(n);
    }
  }

  /**
   * One iteration of the scanning loop: a matched line gives the name before
   * the first colon and the value between the first and second colon, both
   * with surrounding white space removed; any other line gives nothing.
   */
  function ParseLine(l: string): (r: Option<Stat>)
    ensures r.Some? <==> MatchesStatLine(l)
  {
    if MatchesStatLine(l) then
      MatchedLineSplits(l);
      var f := Split(l, ':');
      Some(Stat(TrimSpace(f[0]), ParsedValue(TrimSpace(f[1]))))
    else
      None
  }

  /**
   * The fields of a matched line, stated without Split: `a` is the text
   * before the first colon and `m` the text up to the next colon or the end.
   */
  lemma ParseLineFields(l: string, a: string, m: string, rest: string)
    requires l == a + [':'] + m + rest
    requires ':' !in a && ':' !in m && (rest == [] || rest[0] == ':')
    requires MatchesStatLine(l)
    ensures ParseLine(l) == Some(Stat(TrimSpace(a), ParsedValue(TrimSpace(m))))
  {
    assert l == a + [':'] + (m + rest);
    SplitAtFirst(a, m + rest, ':');
    if rest == [] {
      assert m + rest == m;
      SplitNoSeparator(m, ':');
    } else {
      assert m + rest == m + [':'] + rest[1..];
      SplitAtFirst(m, rest[1..], ':');
    }
  }

  // ---------------------------------------------------------------------------
  // The whole output
  // ---------------------------------------------------------------------------

  /** The line records a statistic called `name`. */
  predicate Records(l: string, name: string) {
    ParseLine(l).Some? && ParseLine(l).value.name == name
  }

  /** The map the scanning loop has built after the given lines. */
  function Snapshot(lines: seq<string>): map<string, nat> {
    if lines == [] then map[]
    else
      var m := Snapshot(lines[..|lines| - 1]);
      match ParseLine(lines[|lines| - 1])
      case None => m
      case Some(s) => m[s.name := s.value]
  }

  /** The snapshot holds exactly the names of the matched lines. */
  lemma {:induction false} SnapshotKeys(lines: seq<string>, name: string)
    ensures name in Snapshot(lines) <==> exists i :: 0 <= i < |lines| && Records(lines[i], name)
  {
    if lines != [] {
      var n := |lines| - 1;
      var init := lines[..n];
      SnapshotKeys(init, name);
      assert name in Snapshot(lines) <==> name in Snapshot(init) || Records(lines[n], name);
      assert forall i :: 0 <= i < n ==> init[i] == lines[i];
    }
  }

  /** When several matched lines share a name, the last of them sets the value. */
  lemma {:induction false} SnapshotLastWins(lines: seq<string>, i: nat)
    requires i < |lines| && ParseLine(lines[i]).Some?
    requires forall j :: i < j < |lines| ==> !Records(lines[j], ParseLine(lines[i]).value.name)
    ensures ParseLine(lines[i]).value.name in Snapshot(lines)
    ensures Snapshot(lines)[ParseLine(lines[i]).value.name] == ParseLine(lines[i]).value.value
  {
    var n := |lines| - 1;
    var s := ParseLine(lines[i]).value;
    var init := lines[..n];
    if i < n {
      assert init[i] == lines[i];
      forall j | i < j < |init|
        ensures !Records(init[j], s.name)
      {
        assert init[j] == lines[j];
      }
      SnapshotLastWins(init, i);
      assert !Records(lines[n], s.name);
      assert Snapshot(lines) == match ParseLine(lines[n])
                                case None => Snapshot(init)
                                case Some(s') => Snapshot(init)[s'.name := s'.value];
    } else {
      assert Snapshot(lines) == Snapshot(init)[s.name := s.value];
    }
  }

  /** A line that does not match leaves the snapshot as if it were absent. */
  lemma {:induction false} UnmatchedLineIgnored(before: seq<string>, l: string, after: seq<string>)
    requires !MatchesStatLine(l)
    ensures Snapshot(before + [l] + after) == Snapshot(before + after)
  {
    if after == [] {
      assert before + [l] + after == before + [l];
      assert (before + [l])[..|before|] == before;
      assert before + after == before;
    } else {
      var n := |after| - 1;
      var with := before + [l] + after;
      var without := before + after;
      assert with[..|with| - 1] == before + [l] + after[..n];
      assert without[..|without| - 1] == before + after[..n];
      assert with[|with| - 1] == after[n] == without[|without| - 1];
      UnmatchedLineIgnored(before, l, after[..n]);
    }
  }

  /**
   * `gatherStats` without the subprocess: scans the lines of the command's
   * output in order and records each statistics line, a later line
   * overwriting an earlier one with the same name.
   */
  method GatherStats(lines: seq<string>) returns (metrics: map<string, nat>)
    ensures metrics == Snapshot(lines)
  {
    metrics := map[];
    var i := 0;
    while i < |lines|
      invariant 0 <= i <= |lines|
      invariant metrics == Snapshot(lines[..i])
    {
      assert lines[..i + 1][..i] == lines[..i];
      match ParseLine(lines[i]) {
        case Some(s) => metrics := metrics[s.name := s.value];
        case None =>
      }
      i := i + 1;
    }
    assert lines[..i] == lines;
  }

  // ---------------------------------------------------------------------------
  // Worked lines
  // ---------------------------------------------------------------------------

  /** Trimming a name or a value with white space only on the outside. */
  lemma TrimPadded(pre: string, w: string)
    requires AllSpaces(pre) && Trimmed(w)
    ensures TrimSpace(pre + w) == w
  {
    assert pre + w == pre + w + [];
    TrimSpaceExact(pre, w, []);
  }

  lemma ParsedValue120()
    ensures ParsedValue("120") == 120
  {
    assert "120"[..2] == "12" && "12"[..1] == "1" && "1"[..0] == "";
  }

  lemma CacheHitsFields()
    ensures TrimSpace("  Cache Hits") == "Cache Hits"
    ensures TrimSpace("Cache Hits") == "Cache Hits"
    ensures TrimSpace(" 120") == "120"
  {
    TrimPadded("  ", "Cache Hits");
    TrimPadded([], "Cache Hits");
    TrimPadded(" ", "120");
  }

  /** Surrounding white space is dropped from the name and the value. */
  lemma ParseLineCacheHits(l: string)
    requires l == "  Cache Hits: 120"
    ensures ParseLine(l) == Some(Stat("Cache Hits", 120))
  {
    assert MatchAt(l, 12);
    assert l == "  Cache Hits" + [':'] + " 120" + [];
    ParseLineFields(l, "  Cache Hits", " 120", []);
    CacheHitsFields();
    ParsedValue120();
  }

  lemma ModeFields()
    ensures TrimSpace("Mode") == "Mode"
    ensures TrimSpace(" auto Retries") == "auto Retries"
    ensures ParsedValue("auto Retries") == 0
  {
    TrimPadded([], "Mode");
    TrimPadded(" ", "auto Retries");
  }

  /**
   * The match may sit after the first colon, while the fields are always cut
   * at the first colon: here the value field is `auto Retries`, which is not
   * a number, so the name `Mode` is recorded with 0.
   */
  lemma ParseLineFirstColon(l: string)
    requires l == "Mode: auto Retries: 3"
    ensures ParseLine(l) == Some(Stat("Mode", 0))
  {
    assert MatchAt(l, 18);
    assert l == "Mode" + [':'] + " auto Retries" + ": 3";
    ParseLineFields(l, "Mode", " auto Retries", ": 3");
    ModeFields();
  }

  /** A line without a colon is not a statistics line. */
  lemma NoColonNoMatch(l: string)
    requires ':' !in l
    ensures !MatchesStatLine(l)
  {
  }

  lemma TransactionsFields()
    ensures TrimSpace("Current Transactions") == "Current Transactions"
    ensures TrimSpace(" 5") == "5"
    ensures ParsedValue("5") == 5
  {
    TrimPadded([], "Current Transactions");
    TrimPadded(" ", "5");
    assert "5"[..0] == "";
  }

  lemma ParseLineTransactions(l: string)
    requires l == "Current Transactions: 5"
    ensures ParseLine(l) == Some(Stat("Current Transactions", 5))
  {
    assert MatchAt(l, 20);
    assert l == "Current Transactions" + [':'] + " 5" + [];
    ParseLineFields(l, "Current Transactions", " 5", []);
    TransactionsFields();
  }

  lemma ParseLineBareCacheHits(l: string)
    requires l == "Cache Hits: 120"
    ensures ParseLine(l) == Some(Stat("Cache Hits", 120))
  {
    assert MatchAt(l, 10);
    assert l == "Cache Hits" + [':'] + " 120" + [];
    ParseLineFields(l, "Cache Hits", " 120", []);
    CacheHitsFields();
    ParsedValue120();
  }

  lemma ParseLineGarbage(l: string)
    requires l == "Garbage line"
    ensures ParseLine(l) == None
  {
    NoColonNoMatch(l);
  }

  lemma SnapshotOfThree(lines: seq<string>, x: Stat, y: Stat)
    requires |lines| == 3
    requires ParseLine(lines[0]) == Some(x) && ParseLine(lines[1]) == None && ParseLine(lines[2]) == Some(y)
    ensures Snapshot(lines) == map[x.name := x.value][y.name := y.value]
  {
    var one, two := lines[..1], lines[..2];
    assert one[..0] == [] && one[0] == lines[0];
    assert Snapshot(one) == map[x.name := x.value];
    assert two[..1] == one && two[1] == lines[1];
    assert Snapshot(two) == Snapshot(one);
    assert lines[..2] == two;
  }

  /**
   * Three lines of command output, one of them not a statistics line, give
   * a snapshot with two names.
   */
  lemma SnapshotExample(lines: seq<string>)
    requires lines == ["Current Transactions: 5", "Garbage line", "Cache Hits: 120"]
    ensures Snapshot(lines) == map["Current Transactions" := 5, "Cache Hits" := 120]
  {
    ParseLineTransactions(lines[0]);
    ParseLineGarbage(lines[1]);
    ParseLineBareCacheHits(lines[2]);
    SnapshotOfThree(lines, Stat("Current Transactions", 5), Stat("Cache Hits", 120));
  }
}
