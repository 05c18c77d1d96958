/**
 * The event detail screen's pure helpers: date and time rendering, the
 * same-day test that picks the single-date display, the three-step cleaning
 * of the description text, and the checks made before a link is opened.
 */
module EventDetail {
  import opened Wrappers
  import opened Text
  import opened Events

  // ----- dates -----

  /** `formatDate`: "DD MM YYYY" with zero-padded day and 1-based month; "" when the field is empty. */
  function FormatDate(d: Option<DateParts>): (r: string)
    ensures r == "" <==> d.None?
  {
    match d
    case None => ""
    case Some(p) => Pad2(p.day) + " " + Pad2(p.month + 1) + " " + IntToString(p.year)
  }

  /** The pieces around one separator character can be sliced back out. */
  lemma SplitAt(a: string, sep: char, b: string)
    ensures var r := a + [sep] + b;
      |r| == |a| + 1 + |b| && r[..|a|] == a && r[|a|] == sep && r[|a| + 1..] == b
  {
    var r := a + [sep] + b;
    assert r[..|a|] == a;
    assert r[|a| + 1..] == b;
  }

  /** The rendered date reads back as the day, the 1-based month and the year. */
  lemma FormatDateLayout(p: DateParts)
    requires ValidParts(p)
    ensures var r := FormatDate(Some(p));
      && |r| >= 7 && r[2] == ' ' && r[5] == ' '
      && AllDigits(r[..2]) && AllDigits(r[3..5]) && IsIntLiteral(r[6..])
      && ParseNat(r[..2]) == p.day && ParseNat(r[3..5]) == p.month + 1 && ParseInt(r[6..]) == p.year
      && r[6..] == IntToString(p.year)
  {
    var dd, mm, yy := Pad2(p.day), Pad2(p.month + 1), IntToString(p.year);
    Pad2Digits(p.day);
    Pad2Digits(p.month + 1);
    ParseIntToString(p.year);
    DateTextSlices(dd, mm, yy);
    var r := FormatDate(Some(p));
    assert r == dd + " " + mm + " " + yy;
    assert r[..2] == dd && r[3..5] == mm && r[6..] == yy;
  }

  /** Where the three fields of a "DD MM Y..." text sit. */
  lemma DateTextSlices(dd: string, mm: string, yy: string)
    requires |dd| == 2 && |mm| == 2 && |yy| >= 1
    ensures var r := dd + " " + mm + " " + yy;
      && |r| >= 7 && r[2] == ' ' && r[5] == ' ' && r[..2] == dd && r[3..5] == mm && r[6..] == yy
  {
    var head := dd + [' '] + mm;
    SplitAt(dd, ' ', mm);
    SplitAt(head, ' ', yy);
    var r := head + [' '] + yy;
    assert r[..2] == head[..2] == dd;
    assert r[3..5] == head[3..] == mm;
  }

  /** `formatTime`: "HH:MM" with zero-padded hours and minutes; "" when the field is empty. */
  function FormatTime(d: Option<DateParts>): (r: string)
    ensures r == "" <==> d.None?
  {
    match d
    case None => ""
    case Some(p) => Pad2(p.hours) + ":" + Pad2(p.minutes)
  }

  /** The rendered time has five characters, a colon at index 2, and reads back as hours and minutes. */
  lemma FormatTimeLayout(p: DateParts)
    requires ValidParts(p)
    ensures var r := FormatTime(Some(p));
      && |r| == 5 && r[2] == ':' && AllDigits(r[..2]) && AllDigits(r[3..])
      && ParseNat(r[..2]) == p.hours && ParseNat(r[3..]) == p.minutes
  {
    var hh, mi := Pad2(p.hours), Pad2(p.minutes);
    Pad2Digits(p.hours);
    Pad2Digits(p.minutes);
    SplitAt(hh, ':', mi);
    assert FormatTime(Some(p)) == hh + [':'] + mi;
  }

  /** `isSameDay`: year, month and day agree. */
  predicate IsSameDay(a: DateParts, b: DateParts) {
    a.year == b.year && a.month == b.month && a.day == b.day
  }

  lemma IsSameDayIsEquivalence(a: DateParts, b: DateParts, c: DateParts)
    ensures IsSameDay(a, a)
    ensures IsSameDay(a, b) ==> IsSameDay(b, a)
    ensures IsSameDay(a, b) && IsSameDay(b, c) ==> IsSameDay(a, c)
  {
  }

  /** Two valid dates fall on the same day exactly when they render to the same date string. */
  lemma SameDayIffSameDateText(a: DateParts, b: DateParts)
    requires ValidParts(a) && ValidParts(b)
    ensures IsSameDay(a, b) <==> FormatDate(Some(a)) == FormatDate(Some(b))
  {
    if FormatDate(Some(a)) == FormatDate(Some(b)) {
      SameTextSameDay(a, b);
    }
  }

  lemma SameTextSameDay(a: DateParts, b: DateParts)
    requires ValidParts(a) && ValidParts(b) && FormatDate(Some(a)) == FormatDate(Some(b))
    ensures IsSameDay(a, b)
  {
    var r := FormatDate(Some(a));
    FormatDateLayout(a);
    FormatDateLayout(b);
    assert ParseNat(r[..2]) == a.day == b.day;
    assert ParseNat(r[3..5]) == a.month + 1 == b.month + 1;
    assert ParseInt(r[6..]) == a.year == b.year;
  }

  /**
   * `isSameDay` on the two raw fields. A missing date is an invalid `Date`
   * whose getters give NaN, and NaN equals nothing, so it is never the same day.
   */
  predicate SameDayFields(start: Option<DateParts>, end: Option<DateParts>) {
    start.Some? && end.Some? && IsSameDay(start.value, end.value)
  }

  datatype DateLine = SingleDate(date: string) | DateRange(start: string, end: string)

  /** The calendar card: one date when start and end share a day, else both dates. */
  function DateDisplay(start: Option<DateParts>, end: Option<DateParts>): DateLine {
    if SameDayFields(start, end) then SingleDate(FormatDate(start))
    else DateRange(FormatDate(start), FormatDate(end))
  }

  predicate ValidField(d: Option<DateParts>) {
    d.Some? ==> ValidParts(d.value)
  }

  /**
   * The single-date display never hides a different end date, and for two
   * present dates it is chosen exactly when the range would repeat one string.
   * A missing date always leads to the range display, with "" in its place.
   */
  lemma DateDisplayLosesNothing(start: Option<DateParts>, end: Option<DateParts>)
    requires ValidField(start) && ValidField(end)
    ensures DateDisplay(start, end).SingleDate? ==>
              DateDisplay(start, end).date == FormatDate(start) == FormatDate(end) != ""
    ensures start.Some? && end.Some? ==>
              (DateDisplay(start, end).SingleDate? <==> FormatDate(start) == FormatDate(end))
    ensures start.None? || end.None? ==>
              DateDisplay(start, end) == DateRange(FormatDate(start), FormatDate(end))
  {
    if start.Some? && end.Some? {
      SameDayIffSameDateText(start.value, end.value);
    }
  }

  // ----- literal global replacement, as String.prototype.replace with a /g regex -----

  /**
   * The length of the first non-empty pattern that `s` starts with, or 0 when
   * none does (the alternatives of the regex, tried at one position).
   */
  function FirstMatch(s: string, pats: seq<string>): (n: nat)
    ensures n <= |s|
    ensures n > 0 ==> s[..n] in pats
    ensures n == 0 ==> forall p :: p in pats && |p| > 0 ==> !StartsWith(s, p)
  {
    if pats == [] then 0
    else if |pats[0]| > 0 && StartsWith(s, pats[0]) then |pats[0]|
    else FirstMatch(s, pats[1..])
  }

  /** How far one scanning step advances: past the match, or one character. */
  function Skip(s: string, pats: seq<string>): (k: nat)
    requires s != []
    ensures 0 < k <= |s|
  {
    var n := FirstMatch(s, pats);
    if n > 0 then n else 1
  }

  /** What one scanning step emits: `rep` for a match, else the character itself. */
  function Emit(s: string, pats: seq<string>, rep: string): string
    requires s != []
  {
    if FirstMatch(s, pats) > 0 then rep else [s[0]]
  }

  /** Scan left to right; replace each match by `rep` and resume after it, else copy one character. */
  function ReplaceAll(s: string, pats: seq<string>, rep: string): string
    decreases |s|
  {
    if s == [] then [] else Emit(s, pats, rep) + ReplaceAll(s[Skip(s, pats)..], pats, rep)
  }

  /** Every pattern starts with `marker` and has it nowhere else. */
  predicate Marked(pats: seq<string>, marker: char) {
    forall p :: p in pats ==> |p| > 0 && p[0] == marker && marker !in p[1..]
  }

  lemma {:induction false} ReplaceAllChars(s: string, pats: seq<string>, rep: string)
    ensures forall c :: c in ReplaceAll(s, pats, rep) ==> c in s || c in rep
    decreases |s|
  {
    if s != [] {
      var n := FirstMatch(s, pats);
      if n > 0 {
        ReplaceAllChars(s[n..], pats, rep);
        forall c | c in s[n..] ensures c in s {
          var k :| 0 <= k < |s[n..]| && s[n..][k] == c;
          assert s[n + k] == c;
        }
      } else {
        ReplaceAllChars(s[1..], pats, rep);
        assert forall c :: c in s[1..] ==> c in s;
      }
    }
  }

  lemma {:induction false} ReplaceAllNotLonger(s: string, pats: seq<string>, rep: string)
    requires forall p :: p in pats && |p| > 0 ==> |rep| <= |p|
    ensures |ReplaceAll(s, pats, rep)| <= |s|
    decreases |s|
  {
    if s != [] {
      var n := FirstMatch(s, pats);
      if n > 0 {
        ReplaceAllNotLonger(s[n..], pats, rep);
      } else {
        ReplaceAllNotLonger(s[1..], pats, rep);
      }
    }
  }

  /** Text in which no pattern occurs comes out unchanged. */
  lemma {:induction false} ReplaceAllUnchanged(s: string, pats: seq<string>, rep: string)
    requires forall p :: p in pats ==> !Contains(s, p)
    ensures ReplaceAll(s, pats, rep) == s
    decreases |s|
  {
    if s != [] {
      assert FirstMatch(s, pats) == 0 by {
        forall p | p in pats ensures !StartsWith(s, p) {
          assert !Contains(s, p);
        }
      }
      ReplaceAllUnchanged(s[1..], pats, rep);
      assert [s[0]] + s[1..] == s;
    }
  }

  /** A pattern cannot run across into text that starts with the marker. */
  lemma {:induction false} FirstMatchBeforeMarker(a: string, t: string, pats: seq<string>, marker: char)
    requires Marked(pats, marker) && |a| > 0 && (t == [] || t[0] == marker)
    ensures FirstMatch(a + t, pats) == FirstMatch(a, pats)
    decreases |pats|
  {
    if pats != [] {
      var p := pats[0];
      if |p| > |a| {
        // p[|a|] lies in p[1..], so it is not the marker that starts t
        assert p[1..][|a| - 1] == p[|a|];
        if t != [] {
          assert (a + t)[|a|] == t[0];
        }
      } else {
        assert (a + t)[..|p|] == a[..|p|];
      }
      FirstMatchBeforeMarker(a, t, pats[1..], marker);
    }
  }

  /** Replacement splits at a point where the marker starts the rest. */
  lemma {:induction false} ReplaceAllSplit(a: string, t: string, pats: seq<string>, rep: string, marker: char)
    requires Marked(pats, marker) && (t == [] || t[0] == marker)
    ensures ReplaceAll(a + t, pats, rep) == ReplaceAll(a, pats, rep) + ReplaceAll(t, pats, rep)
    decreases |a|
  {
    if a == [] {
      assert a + t == t;
    } else {
      FirstMatchBeforeMarker(a, t, pats, marker);
      var k := Skip(a, pats);
      SameStep(a, t, pats, rep);
      SuffixAppend(a, t, k);
      ReplaceAllSplit(a[k..], t, pats, rep, marker);
    }
  }

  /** A step that matches the same way on `a` and on `a + t` emits and skips the same. */
  lemma SameStep(a: string, t: string, pats: seq<string>, rep: string)
    requires a != [] && FirstMatch(a + t, pats) == FirstMatch(a, pats)
    ensures Emit(a + t, pats, rep) == Emit(a, pats, rep) && Skip(a + t, pats) == Skip(a, pats)
  {
    assert (a + t)[0] == a[0];
  }

  lemma SuffixAppend(a: string, t: string, k: nat)
    requires k <= |a|
    ensures (a + t)[k..] == a[k..] + t
  {
  }

  /** With a single pattern, a scanning step matches exactly when the text starts with it. */
  lemma SingleStep(s: string, pat: string, rep: string)
    requires s != [] && |pat| > 0
    ensures StartsWith(s, pat) ==> Emit(s, [pat], rep) == rep && Skip(s, [pat]) == |pat|
    ensures !StartsWith(s, pat) ==> Emit(s, [pat], rep) == [s[0]] && Skip(s, [pat]) == 1
  {
  }

  /** A prefix of the output free of `rep`'s characters was a prefix of the input. */
  lemma {:induction false} OutputPrefixIsInputPrefix(s: string, pat: string, rep: string, q: string)
    requires |pat| > 0 && |rep| > 0
    requires forall c :: c in q ==> c !in rep
    ensures StartsWith(ReplaceAll(s, [pat], rep), q) ==> StartsWith(s, q)
    decreases |s|
  {
    if q != [] && s != [] {
      SingleStep(s, pat, rep);
      assert q[0] in q;
      var out := ReplaceAll(s, [pat], rep);
      if StartsWith(s, pat) {
        assert out[0] == rep[0] && rep[0] in rep;
      } else {
        var rest := ReplaceAll(s[1..], [pat], rep);
        assert out == [s[0]] + rest && out[0] == s[0] && out[1..] == rest;
        assert forall c :: c in q[1..] ==> c in q;
        OutputPrefixIsInputPrefix(s[1..], pat, rep, q[1..]);
        StartsWithCons(out, q);
        StartsWithCons(s, q);
      }
    }
  }

  /** Text whose characters are foreign to the pattern cannot host the start of an occurrence. */
  lemma {:induction false} ContainsPastForeign(x: string, y: string, pat: string)
    requires |pat| > 0 && forall c :: c in x ==> c !in pat
    requires Contains(x + y, pat)
    ensures Contains(y, pat)
    decreases |x|
  {
    if x == [] {
      assert x + y == y;
    } else {
      assert (x + y)[0] == x[0] && x[0] !in pat;
      assert !StartsWith(x + y, pat);
      assert (x + y)[1..] == x[1..] + y;
      ContainsPastForeign(x[1..], y, pat);
    }
  }

  /** When `rep` shares no character with the pattern, no occurrence survives the replacement. */
  lemma {:induction false} ReplaceAllRemoves(s: string, pat: string, rep: string)
    requires |pat| > 0 && |rep| > 0
    requires forall c :: c in rep ==> c !in pat
    ensures !Contains(ReplaceAll(s, [pat], rep), pat)
    decreases |s|, 1
  {
    if s != [] {
      SingleStep(s, pat, rep);
      if StartsWith(s, pat) {
        ReplaceAllRemoves(s[|pat|..], pat, rep);
        var rest := ReplaceAll(s[|pat|..], [pat], rep);
        assert ReplaceAll(s, [pat], rep) == rep + rest;
        if Contains(rep + rest, pat) {
          ContainsPastForeign(rep, rest, pat);
        }
      } else {
        NoMatchAfterCopy(s, pat, rep);
      }
    }
  }

  /** The step case of `ReplaceAllRemoves` where the first character is copied. */
  lemma {:induction false} NoMatchAfterCopy(s: string, pat: string, rep: string)
    requires s != [] && |pat| > 0 && |rep| > 0 && !StartsWith(s, pat)
    requires forall c :: c in rep ==> c !in pat
    ensures !Contains(ReplaceAll(s, [pat], rep), pat)
    decreases |s|, 0
  {
    SingleStep(s, pat, rep);
    ReplaceAllRemoves(s[1..], pat, rep);
    var rest := ReplaceAll(s[1..], [pat], rep);
    var out := ReplaceAll(s, [pat], rep);
    assert out == [s[0]] + rest && out[0] == s[0] && out[1..] == rest;
    assert forall c :: c in pat[1..] ==> c in pat;
    OutputPrefixIsInputPrefix(s[1..], pat, rep, pat[1..]);
    StartsWithCons(out, pat);
    StartsWithCons(s, pat);
  }

  // ----- cleanText -----

  const BrTags: seq<string> := ["<br>", "</br>"]
  const Nbsp: string := "&nbsp;"

  /** `.replace(/<\/?br>/g, "")`. */
  function RemoveBrTags(s: string): string {
    ReplaceAll(s, BrTags, "")
  }

  /** `.replace(/&nbsp;/g, " ")`. */
  function DecodeNbsp(s: string): string {
    ReplaceAll(s, [Nbsp], " ")
  }

  predicate IsBreak(c: char) {
    c == '\r' || c == '\n'
  }

  predicate NoBreaks(s: string) {
    forall i :: 0 <= i < |s| ==> !IsBreak(s[i])
  }

  /** The rest of `s` after its leading run of CR/LF characters. */
  function DropBreaks(s: string): (r: string)
    ensures |r| <= |s|
    ensures r == [] || !IsBreak(r[0])
    ensures |s| > 0 && IsBreak(s[0]) ==> |r| < |s|
  {
    if s != [] && IsBreak(s[0]) then DropBreaks(s[1..]) else s
  }

  /** One scanning step of the collapse: where the next step resumes. */
  function BreakSkip(s: string): (r: string)
    requires s != []
    ensures |r| < |s|
  {
    if IsBreak(s[0]) then DropBreaks(s) else s[1..]
  }

  /** One scanning step of the collapse: a space for a run of breaks, else the character. */
  function BreakEmit(s: string): string
    requires s != []
  {
    if IsBreak(s[0]) then " " else [s[0]]
  }

  /** `.replace(/[\r\n]+/g, " ")`: each maximal run of CR/LF becomes one space. */
  function CollapseBreaks(s: string): string
    decreases |s|
  {
    if s == [] then [] else BreakEmit(s) + CollapseBreaks(BreakSkip(s))
  }

  /** `cleanText`: empty (falsy) text gives ""; otherwise the three replacements in order. */
  function CleanText(text: string): string {
    if text == "" then "" else DecodeNbsp(CollapseBreaks(RemoveBrTags(text)))
  }

  lemma {:induction false} CollapseBreaksClears(s: string)
    ensures NoBreaks(CollapseBreaks(s))
    ensures |CollapseBreaks(s)| <= |s|
    decreases |s|
  {
    if s != [] {
      CollapseBreaksClears(BreakSkip(s));
    }
  }

  lemma {:induction false} CollapseBreaksUnchanged(s: string)
    requires NoBreaks(s)
    ensures CollapseBreaks(s) == s
    decreases |s|
  {
    if s != [] {
      CollapseBreaksUnchanged(s[1..]);
      assert [s[0]] + s[1..] == s;
    }
  }

  lemma {:induction false} DropBreaksAppend(a: string, t: string)
    requires a != [] && !IsBreak(a[|a| - 1])
    ensures DropBreaks(a + t) == DropBreaks(a) + t
    ensures DropBreaks(a) != [] && DropBreaks(a)[|DropBreaks(a)| - 1] == a[|a| - 1]
    decreases |a|
  {
    if IsBreak(a[0]) {
      assert |a| > 1;
      assert (a + t)[1..] == a[1..] + t;
      DropBreaksAppend(a[1..], t);
    }
  }

  /** Collapsing splits after a character that is not a break. */
  lemma {:induction false} CollapseBreaksAppend(a: string, t: string)
    requires a == [] || !IsBreak(a[|a| - 1])
    ensures CollapseBreaks(a + t) == CollapseBreaks(a) + CollapseBreaks(t)
    decreases |a|
  {
    if a == [] {
      assert a + t == t;
    } else {
      var rest := BreakSkip(a);
      assert (a + t)[0] == a[0];
      if IsBreak(a[0]) {
        DropBreaksAppend(a, t);
      } else {
        assert (a + t)[1..] == a[1..] + t;
      }
      assert BreakSkip(a + t) == rest + t;
      CollapseBreaksAppend(rest, t);
    }
  }

  /** A maximal run of CR/LF characters becomes exactly one space. */
  lemma CollapseBreaksRun(a: string, run: string, b: string)
    requires a == [] || !IsBreak(a[|a| - 1])
    requires |run| > 0 && forall i :: 0 <= i < |run| ==> IsBreak(run[i])
    requires b == [] || !IsBreak(b[0])
    ensures CollapseBreaks(a + (run + b)) == CollapseBreaks(a) + (" " + CollapseBreaks(b))
  {
    CollapseBreaksAppend(a, run + b);
    CollapseRunHead(run, b);
  }

  lemma CollapseRunHead(run: string, b: string)
    requires |run| > 0 && forall i :: 0 <= i < |run| ==> IsBreak(run[i])
    requires b == [] || !IsBreak(b[0])
    ensures CollapseBreaks(run + b) == " " + CollapseBreaks(b)
  {
    DropRun(run, b);
    assert (run + b)[0] == run[0];
  }

  lemma {:induction false} DropRun(run: string, b: string)
    requires forall i :: 0 <= i < |run| ==> IsBreak(run[i])
    requires b == [] || !IsBreak(b[0])
    ensures DropBreaks(run + b) == b
    decreases |run|
  {
    if run == [] {
      assert run + b == b;
    } else {
      assert (run + b)[1..] == run[1..] + b;
      DropRun(run[1..], b);
    }
  }

  /** A `<br>` or `</br>` tag is deleted without leaving a space. */
  lemma BrTagDeleted(a: string, tag: string, b: string)
    requires tag in BrTags
    ensures RemoveBrTags(a + (tag + b)) == RemoveBrTags(a) + RemoveBrTags(b)
  {
    assert Marked(BrTags, '<');
    ReplaceAllSplit(a, tag + b, BrTags, "", '<');
    BrTagHead(tag, b);
  }

  lemma BrTagHead(tag: string, b: string)
    requires tag in BrTags
    ensures RemoveBrTags(tag + b) == RemoveBrTags(b)
  {
    assert (tag + b)[..|tag|] == tag;
    assert (tag + b)[1] == tag[1];
    assert (tag + b)[|tag|..] == b;
  }

  /** Every `&nbsp;` becomes one space. */
  lemma NbspDecoded(a: string, b: string)
    ensures DecodeNbsp(a + (Nbsp + b)) == DecodeNbsp(a) + (" " + DecodeNbsp(b))
  {
    assert Marked([Nbsp], '&');
    ReplaceAllSplit(a, Nbsp + b, [Nbsp], " ", '&');
    NbspHead(b);
  }

  lemma NbspHead(b: string)
    ensures DecodeNbsp(Nbsp + b) == " " + DecodeNbsp(b)
  {
    assert (Nbsp + b)[..|Nbsp|] == Nbsp;
    assert (Nbsp + b)[|Nbsp|..] == b;
  }

  /** Text without the marker character is left alone by the replacement. */
  lemma {:induction false} ReplaceAllNoMarker(s: string, pats: seq<string>, rep: string, marker: char)
    requires Marked(pats, marker) && marker !in s
    ensures ReplaceAll(s, pats, rep) == s
    decreases |s|
  {
    if s != [] {
      assert marker !in s[1..] by {
        assert forall c :: c in s[1..] ==> c in s;
      }
      ReplaceAllNoMarker(s[1..], pats, rep, marker);
      assert [s[0]] + s[1..] == s;
    }
  }

  /** The cleaned text has no CR, no LF and no `&nbsp;`, and is never longer than the input. */
  lemma CleanTextClears(text: string)
    ensures NoBreaks(CleanText(text))
    ensures !Contains(CleanText(text), Nbsp)
    ensures |CleanText(text)| <= |text|
  {
    if text != "" {
      var s1 := RemoveBrTags(text);
      var s2 := CollapseBreaks(s1);
      ReplaceAllNotLonger(text, BrTags, "");
      CollapseBreaksClears(s1);
      DecodeKeepsNoBreaks(s2);
      NbspFacts();
      ReplaceAllRemoves(s2, Nbsp, " ");
    } else {
      assert !StartsWith("", Nbsp);
    }
  }

  /** The third step neither adds a break nor lengthens the text. */
  lemma DecodeKeepsNoBreaks(s: string)
    requires NoBreaks(s)
    ensures NoBreaks(DecodeNbsp(s)) && |DecodeNbsp(s)| <= |s|
  {
    ReplaceAllNotLonger(s, [Nbsp], " ");
    ReplaceAllChars(s, [Nbsp], " ");
    var r := DecodeNbsp(s);
    forall i | 0 <= i < |r| ensures !IsBreak(r[i]) {
      assert r[i] in r;
    }
  }

  lemma NbspFacts()
    ensures |Nbsp| == 6 && NoBreaks(Nbsp) && '<' !in Nbsp && Marked([Nbsp], '&')
    ensures forall c :: c in " " ==> c !in Nbsp
  {
  }

  lemma TagFacts(tag: string)
    requires tag in BrTags
    ensures |tag| > 1 && NoBreaks(tag) && '&' !in tag && Marked(BrTags, '<')
  {
  }

  /** Text with no `<br>`, `</br>`, CR, LF or `&nbsp;` is returned unchanged. */
  lemma CleanTextUnchanged(text: string)
    requires !Contains(text, "<br>") && !Contains(text, "</br>") && !Contains(text, Nbsp)
    requires NoBreaks(text)
    ensures CleanText(text) == text
  {
    ReplaceAllUnchanged(text, BrTags, "");
    CollapseBreaksUnchanged(text);
    ReplaceAllUnchanged(text, [Nbsp], " ");
  }

  /** Text that none of the three replacements touches. */
  predicate PlainText(w: string) {
    '<' !in w && '&' !in w && NoBreaks(w)
  }

  /**
   * A `<br>` between two words joins them and `&nbsp;` becomes a space:
   * "Line1<br>Line2&nbsp;end" is cleaned to "Line1Line2 end".
   */
  lemma CleanTextJoinsAtBreakTag(w1: string, w2: string, w3: string)
    requires PlainText(w1) && PlainText(w2) && PlainText(w3)
    ensures CleanText(w1 + ("<br>" + (w2 + (Nbsp + w3)))) == w1 + (w2 + (" " + w3))
  {
    JoinRemovesTag(w1, w2, w3);
    JoinKeepsBreaks(w1, w2, w3);
    JoinDecodes(w1, w2, w3);
  }

  lemma JoinRemovesTag(w1: string, w2: string, w3: string)
    requires PlainText(w1) && PlainText(w2) && PlainText(w3)
    ensures RemoveBrTags(w1 + ("<br>" + (w2 + (Nbsp + w3)))) == w1 + (w2 + (Nbsp + w3))
  {
    var rest := w2 + (Nbsp + w3);
    BrTagDeleted(w1, "<br>", rest);
    NoTagLeft(w1);
    NoTagAfter(w2, w3);
  }

  lemma NoTagLeft(w: string)
    requires PlainText(w)
    ensures RemoveBrTags(w) == w
  {
    assert Marked(BrTags, '<');
    ReplaceAllNoMarker(w, BrTags, "", '<');
  }

  lemma NoTagAfter(w2: string, w3: string)
    requires PlainText(w2) && PlainText(w3)
    ensures RemoveBrTags(w2 + (Nbsp + w3)) == w2 + (Nbsp + w3)
  {
    NbspFacts();
    TagFacts("<br>");
    assert '<' !in w2 + (Nbsp + w3);
    ReplaceAllNoMarker(w2 + (Nbsp + w3), BrTags, "", '<');
  }

  lemma JoinKeepsBreaks(w1: string, w2: string, w3: string)
    requires PlainText(w1) && PlainText(w2) && PlainText(w3)
    ensures CollapseBreaks(w1 + (w2 + (Nbsp + w3))) == w1 + (w2 + (Nbsp + w3))
  {
    NbspFacts();
    PlainTextBreaks(Nbsp, w3);
    PlainTextBreaks(w2, Nbsp + w3);
    PlainTextBreaks(w1, w2 + (Nbsp + w3));
    CollapseBreaksUnchanged(w1 + (w2 + (Nbsp + w3)));
  }

  lemma {:induction false} PlainTextBreaks(a: string, b: string)
    requires NoBreaks(a) && NoBreaks(b)
    ensures NoBreaks(a + b)
  {
    forall i | 0 <= i < |a + b| ensures !IsBreak((a + b)[i]) {
      if i < |a| {
        assert (a + b)[i] == a[i];
      } else {
        assert (a + b)[i] == b[i - |a|];
      }
    }
  }

  lemma JoinDecodes(w1: string, w2: string, w3: string)
    requires PlainText(w1) && PlainText(w2) && PlainText(w3)
    ensures DecodeNbsp(w1 + (w2 + (Nbsp + w3))) == w1 + (w2 + (" " + w3))
  {
    assert Marked([Nbsp], '&');
    ReplaceAllNoMarkerPrefix(w1, w2 + (Nbsp + w3), [Nbsp], " ", '&');
    ReplaceAllNoMarkerPrefix(w2, Nbsp + w3, [Nbsp], " ", '&');
    NbspHead(w3);
    ReplaceAllNoMarker(w3, [Nbsp], " ", '&');
  }

  /** Text before the first marker character is copied through unchanged. */
  lemma {:induction false} ReplaceAllNoMarkerPrefix(a: string, t: string, pats: seq<string>, rep: string, marker: char)
    requires Marked(pats, marker) && marker !in a
    ensures ReplaceAll(a + t, pats, rep) == a + ReplaceAll(t, pats, rep)
    decreases |a|
  {
    if a == [] {
      assert a + t == t;
    } else {
      var rest := a[1..];
      NotInTail(a, marker);
      ConsAppend(a, t);
      CopyStep(a + t, pats, rep, marker);
      ReplaceAllNoMarkerPrefix(rest, t, pats, rep, marker);
      ConsRegroup(a, ReplaceAll(t, pats, rep));
    }
  }

  lemma NotInTail(a: string, c: char)
    requires a != [] && c !in a
    ensures c !in a[1..]
  {
    assert forall x :: x in a[1..] ==> x in a;
  }

  lemma ConsAppend(a: string, t: string)
    requires a != []
    ensures (a + t)[0] == a[0] && (a + t)[1..] == a[1..] + t
  {
  }

  lemma ConsRegroup(a: string, u: string)
    requires a != []
    ensures [a[0]] + (a[1..] + u) == a + u
  {
    assert [a[0]] + a[1..] == a;
  }

  /** A character that is not the marker is copied. */
  lemma CopyStep(s: string, pats: seq<string>, rep: string, marker: char)
    requires Marked(pats, marker) && s != [] && s[0] != marker
    ensures ReplaceAll(s, pats, rep) == [s[0]] + ReplaceAll(s[1..], pats, rep)
  {
    assert FirstMatch(s, pats) == 0;
  }

  /**
   * Cleaning is not idempotent: removing a tag can assemble another one from
   * the text around it ("<<br>br>" becomes "<br>", which becomes "").
   */
  lemma CleanTextNotIdempotent(tag: string)
    requires tag in BrTags
    ensures CleanText(tag[..1] + (tag + tag[1..])) == tag
    ensures CleanText(tag) == ""
  {
    TagAssembled(tag);
    TagIsPlainOtherwise(tag);
    TagCleaned(tag);
  }

  lemma TagAssembled(tag: string)
    requires tag in BrTags
    ensures RemoveBrTags(tag[..1] + (tag + tag[1..])) == tag
  {
    BrTagDeleted(tag[..1], tag, tag[1..]);
    SingleCharKept(tag[..1]);
    TagRestKept(tag);
    assert tag[..1] + tag[1..] == tag;
  }

  /** One character is too short to be a tag. */
  lemma SingleCharKept(s: string)
    requires |s| == 1
    ensures RemoveBrTags(s) == s
  {
    TagFacts("<br>");
    TagFacts("</br>");
    assert FirstMatch(s, BrTags) == 0;
    assert Emit(s, BrTags, "") == [s[0]] == s;
    var rest := s[Skip(s, BrTags)..];
    assert rest == [];
    assert ReplaceAll(rest, BrTags, "") == [];
    assert ReplaceAll(s, BrTags, "") == Emit(s, BrTags, "") + ReplaceAll(rest, BrTags, "");
  }

  lemma TagRestKept(tag: string)
    requires tag in BrTags
    ensures RemoveBrTags(tag[1..]) == tag[1..]
  {
    assert Marked(BrTags, '<');
    ReplaceAllNoMarker(tag[1..], BrTags, "", '<');
  }

  lemma TagIsPlainOtherwise(tag: string)
    requires tag in BrTags
    ensures CollapseBreaks(tag) == tag && DecodeNbsp(tag) == tag
  {
    NbspFacts();
    TagFacts(tag);
    CollapseBreaksUnchanged(tag);
    ReplaceAllNoMarker(tag, [Nbsp], " ", '&');
  }

  lemma TagCleaned(tag: string)
    requires tag in BrTags
    ensures CleanText(tag) == ""
  {
    assert tag == "" + (tag + "");
    BrTagDeleted("", tag, "");
  }

  // ----- links -----

  const BaseUrl: string := "https://" + "kultursanat.izmir.bel.tr/Etkinlikler"

  /** Only absolute http(s) URLs are opened. */
  predicate IsWebUrl(url: string) {
    StartsWith(url, "http://") || StartsWith(url, "https://")
  }

  datatype UrlAction = OpenUrl(url: string) | RejectUrl(url: string) | NoAction

  /** `handleOpenEventPage`: the page URL is the base URL joined to the event's page path. */
  function OpenEventPage(pagePath: string): (a: UrlAction)
    ensures a == OpenUrl(BaseUrl + "/" + pagePath)
    ensures StartsWith(a.url, "https://")
  {
    var url := BaseUrl + "/" + pagePath;
    assert StartsWith("https://", "https://");
    StartsWithAppend("https://", "https://", "kultursanat.izmir.bel.tr/Etkinlikler");
    StartsWithAppend(BaseUrl, "https://", "/" + pagePath);
    assert url == BaseUrl + ("/" + pagePath);
    if IsWebUrl(url) then OpenUrl(url) else RejectUrl(url)
  }

  /** `handleBuyTicket`: nothing for a missing link, open an http(s) link, report anything else. */
  function BuyTicket(link: Option<string>): (a: UrlAction)
    ensures a.OpenUrl? <==> link.Some? && link.value != "" && IsWebUrl(link.value)
    ensures a == NoAction <==> link == None || link == Some("")
    ensures a.OpenUrl? || a.RejectUrl? ==> link == Some(a.url)
  {
    match link
    case None => NoAction
    case Some(url) =>
      if url == "" then NoAction
      else if url != "" && IsWebUrl(url) then OpenUrl(url)
      else RejectUrl(url)
  }

  /** The ticket button is rendered only for a non-empty link. */
  predicate ShowsTicketButton(e: Event) {
    e.ticketLink.Some? && e.ticketLink.value != ""
  }

  /** Pressing a rendered ticket button always opens the link or reports it. */
  lemma TicketButtonAlwaysActs(e: Event)
    ensures ShowsTicketButton(e) <==> BuyTicket(e.ticketLink) != NoAction
  {
  }
}
