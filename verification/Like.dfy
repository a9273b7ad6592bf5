/** SQL `LIKE` and the substring filters of LDAP that are translated to it. */
module Like {
  import opened Wrappers
  import opened Text

  datatype SubStringFilter = SubStringFilter(initial: Option<string>, parts: seq<string>, final: Option<string>)

  /** Whether `s` matches the pattern: '%' stands for any text, '_' for one character. */
  predicate Matches(pattern: string, s: string)
    decreases |pattern| + |s|
  {
    if pattern == [] then s == []
    else if pattern[0] == '%' then Matches(pattern[1..], s) || (s != [] && Matches(pattern, s[1..]))
    else s != [] && (pattern[0] == '_' || pattern[0] == s[0]) && Matches(pattern[1..], s[1..])
  }

  predicate IsMeta(c: char) {
    c == '%' || c == '_'
  }

  predicate Plain(s: string) {
    forall c :: c in s ==> !IsMeta(c)
  }

  // ----- The translation -----

  /** The part of the pattern after the initial fragment. */
  function TailPattern(parts: seq<string>, final: string): string {
    if parts == [] then "%" + Lower(final)
    else "%" + Lower(parts[0]) + TailPattern(parts[1..], final)
  }

  function SqlPattern(f: SubStringFilter): string {
    Lower(f.initial.GetOr("")) + TailPattern(f.parts, f.final.GetOr(""))
  }

  function TotalLength(parts: seq<string>): nat {
    if parts == [] then 0 else |parts[0]| + TotalLength(parts[1..])
  }

  /** The capacity that is reserved before the pattern is written. */
  function Capacity(f: SubStringFilter): nat {
    |f.initial.GetOr("")| + 1 + TotalLength(f.parts) + |f.parts| + |f.final.GetOr("")|
  }

  /** The text pushed for the parts alone, each followed by '%'. */
  function PartsPushed(parts: seq<string>): string {
    if parts == [] then "" else Lower(parts[0]) + "%" + PartsPushed(parts[1..])
  }

  lemma {:induction false} PartsPushedSnoc(parts: seq<string>, part: string)
    ensures PartsPushed(parts + [part]) == PartsPushed(parts) + Lower(part) + "%"
  {
    if parts == [] {
      assert parts + [part] == [part];
      assert PartsPushed([part][1..]) == "";
    } else {
      assert (parts + [part])[1..] == parts[1..] + [part];
      PartsPushedSnoc(parts[1..], part);
    }
  }

  lemma {:induction false} PushedIsPattern(parts: seq<string>, final: string)
    ensures "%" + PartsPushed(parts) + Lower(final) == TailPattern(parts, final)
  {
    if parts != [] {
      PushedIsPattern(parts[1..], final);
      var pushed := PartsPushed(parts[1..]);
      assert PartsPushed(parts) == Lower(parts[0]) + "%" + pushed;
      assert "%" + PartsPushed(parts) + Lower(final) == "%" + Lower(parts[0]) + ("%" + pushed + Lower(final));
    }
  }

  lemma {:induction false} TailPatternLength(parts: seq<string>, final: string)
    ensures |TailPattern(parts, final)| == 1 + TotalLength(parts) + |parts| + |final|
  {
    if parts != [] {
      TailPatternLength(parts[1..], final);
    }
  }

  /** Writes the pattern into a buffer; the buffer never outgrows what was reserved,
      and is full at the end. */
  method ToSqlFilter(f: SubStringFilter) returns (filter: string)
    ensures filter == SqlPattern(f)
    ensures |filter| == Capacity(f)
  {
    filter := "";
    if f.initial.Some? {
      filter := filter + Lower(f.initial.value);
    }
    filter := filter + "%";
    var head := Lower(f.initial.GetOr("")) + "%";
    assert filter == head;
    var i := 0;
    while i < |f.parts|
      invariant 0 <= i <= |f.parts|
      invariant filter == head + PartsPushed(f.parts[..i])
    {
      filter := filter + Lower(f.parts[i]);
      filter := filter + "%";
      PartsPushedSnoc(f.parts[..i], f.parts[i]);
      assert f.parts[..i + 1] == f.parts[..i] + [f.parts[i]];
      i := i + 1;
    }
    assert f.parts[..i] == f.parts;
    if f.final.Some? {
      filter := filter + Lower(f.final.value);
    }
    PatternAssembled(f, filter);
  }

  lemma PatternAssembled(f: SubStringFilter, filter: string)
    requires filter == Lower(f.initial.GetOr("")) + "%" + PartsPushed(f.parts) + Lower(f.final.GetOr(""))
    ensures filter == SqlPattern(f) && |filter| == Capacity(f)
  {
    var final := f.final.GetOr("");
    assert filter == Lower(f.initial.GetOr("")) + ("%" + PartsPushed(f.parts) + Lower(final));
    PushedIsPattern(f.parts, final);
    TailPatternLength(f.parts, final);
  }

  // ----- What a substring filter means -----

  /** Gap, part, gap, part, ..., gap, final. */
  function Interleave(gaps: seq<string>, parts: seq<string>, final: string): string
    requires |gaps| == |parts| + 1
  {
    if parts == [] then gaps[0] + Lower(final)
    else gaps[0] + Lower(parts[0]) + Interleave(gaps[1..], parts[1..], final)
  }

  ghost predicate TailHolds(parts: seq<string>, final: string, s: string) {
    exists gaps: seq<string> :: |gaps| == |parts| + 1 && s == Interleave(gaps, parts, final)
  }

  /** Section 4.5.1.7.2 of RFC 4511: the value is the initial fragment, then each
      part in order without overlap, then the final fragment, with any text between. */
  ghost predicate Holds(f: SubStringFilter, s: string) {
    exists gaps: seq<string> :: |gaps| == |f.parts| + 1 &&
      s == Lower(f.initial.GetOr("")) + Interleave(gaps, f.parts, f.final.GetOr(""))
  }

  predicate PlainFilter(f: SubStringFilter) {
    && Plain(f.initial.GetOr(""))
    && (forall p :: p in f.parts ==> Plain(p))
    && Plain(f.final.GetOr(""))
  }

  lemma PlainLower(s: string)
    ensures Plain(Lower(s)) <==> Plain(s)
  {
    LowerKeepsNonLetter(s, '%');
    LowerKeepsNonLetter(s, '_');
  }

  lemma {:induction false} MatchesPlain(literal: string, pattern: string, s: string)
    requires Plain(literal)
    ensures Matches(literal + pattern, s) <==> literal <= s && Matches(pattern, s[|literal|..])
  {
    if literal == [] {
      assert literal + pattern == pattern;
    } else {
      assert (literal + pattern)[1..] == literal[1..] + pattern;
      assert literal[0] in literal;
      if s != [] {
        assert Plain(literal[1..]);
        MatchesPlain(literal[1..], pattern, s[1..]);
        assert literal <= s <==> literal[0] == s[0] && literal[1..] <= s[1..];
        if literal <= s {
          assert s[1..][|literal[1..]|..] == s[|literal|..];
        }
      }
    }
  }

  lemma {:induction false} MatchesPercent(pattern: string, s: string)
    ensures Matches("%" + pattern, s) <==> exists k :: 0 <= k <= |s| && Matches(pattern, s[k..])
    decreases |s|
  {
    assert ("%" + pattern)[1..] == pattern;
    assert s[0..] == s;
    if s != [] {
      MatchesPercent(pattern, s[1..]);
      assert forall k :: 0 <= k <= |s[1..]| ==> s[1..][k..] == s[k + 1..];
      if exists k :: 0 <= k <= |s| && Matches(pattern, s[k..]) {
        var k :| 0 <= k <= |s| && Matches(pattern, s[k..]);
        if k > 0 {
          assert Matches(pattern, s[1..][k - 1..]);
        }
      }
      if exists k :: 0 <= k <= |s[1..]| && Matches(pattern, s[1..][k..]) {
        var k :| 0 <= k <= |s[1..]| && Matches(pattern, s[1..][k..]);
        assert Matches(pattern, s[k + 1..]);
      }
    }
  }

  lemma {:induction false} MatchesOnlyPlain(literal: string, s: string)
    requires Plain(literal)
    ensures Matches(literal, s) <==> s == literal
  {
    MatchesPlain(literal, "", s);
    assert literal + "" == literal;
  }

  lemma TailHoldsLast(final: string, s: string)
    ensures TailHolds([], final, s) <==> exists k :: 0 <= k <= |s| && s[k..] == Lower(final)
  {
    if TailHolds([], final, s) {
      var gaps: seq<string> :| |gaps| == 1 && s == Interleave(gaps, [], final);
      assert s[|gaps[0]|..] == Lower(final);
    }
    if k :| 0 <= k <= |s| && s[k..] == Lower(final) {
      assert s == Interleave([s[..k]], [], final);
    }
  }

  /** The next part occurs at `k`, and the rest of the filter holds behind it. */
  ghost predicate NextAt(parts: seq<string>, final: string, s: string, k: nat)
    requires parts != []
  {
    k <= |s| && Lower(parts[0]) <= s[k..] && TailHolds(parts[1..], final, s[k..][|parts[0]|..])
  }

  lemma TailHoldsFrom(parts: seq<string>, final: string, s: string, k: nat)
    requires parts != [] && NextAt(parts, final, s, k)
    ensures TailHolds(parts, final, s)
  {
    var part := Lower(parts[0]);
    var tail := s[k..][|part|..];
    var gaps: seq<string> :| |gaps| == |parts[1..]| + 1 && tail == Interleave(gaps, parts[1..], final);
    var all := [s[..k]] + gaps;
    assert all[1..] == gaps;
    assert s[k..] == part + tail;
    assert s == s[..k] + part + tail;
    assert Interleave(all, parts, final) == s[..k] + part + tail;
  }

  lemma TailHoldsTo(parts: seq<string>, final: string, s: string, gaps: seq<string>)
    requires parts != [] && |gaps| == |parts| + 1 && s == Interleave(gaps, parts, final)
    ensures NextAt(parts, final, s, |gaps[0]|)
  {
    var part := Lower(parts[0]);
    var tail := Interleave(gaps[1..], parts[1..], final);
    assert s == gaps[0] + part + tail;
    assert s[|gaps[0]|..] == part + tail;
    assert s[|gaps[0]|..][|part|..] == tail;
  }

  lemma TailHoldsNext(parts: seq<string>, final: string, s: string)
    requires parts != []
    ensures TailHolds(parts, final, s) <==> exists k: nat :: NextAt(parts, final, s, k)
  {
    if TailHolds(parts, final, s) {
      var gaps: seq<string> :| |gaps| == |parts| + 1 && s == Interleave(gaps, parts, final);
      TailHoldsTo(parts, final, s, gaps);
    }
    if k: nat :| NextAt(parts, final, s, k) {
      TailHoldsFrom(parts, final, s, k);
    }
  }

  lemma {:induction false} TailCorrect(parts: seq<string>, final: string, s: string)
    requires Plain(final) && forall p :: p in parts ==> Plain(p)
    ensures Matches(TailPattern(parts, final), s) <==> TailHolds(parts, final, s)
    decreases |parts|
  {
    if parts == [] {
      PlainLower(final);
      MatchesPercent(Lower(final), s);
      TailHoldsLast(final, s);
      forall k | 0 <= k <= |s|
        ensures Matches(Lower(final), s[k..]) <==> s[k..] == Lower(final)
      {
        MatchesOnlyPlain(Lower(final), s[k..]);
      }
    } else {
      var part, rest := Lower(parts[0]), TailPattern(parts[1..], final);
      assert parts[0] in parts;
      PlainLower(parts[0]);
      assert TailPattern(parts, final) == "%" + (part + rest);
      MatchesPercent(part + rest, s);
      TailHoldsNext(parts, final, s);
      forall k: nat | k <= |s|
        ensures Matches(part + rest, s[k..]) <==> NextAt(parts, final, s, k)
      {
        MatchesPlain(part, rest, s[k..]);
        if part <= s[k..] {
          TailCorrect(parts[1..], final, s[k..][|part|..]);
        }
      }
    }
  }

  /** Without metacharacters in the fragments, the pattern matches a value exactly
      when the filter holds of it. */
  lemma PatternCorrect(f: SubStringFilter, s: string)
    requires PlainFilter(f)
    ensures Matches(SqlPattern(f), s) <==> Holds(f, s)
  {
    var initial, final := Lower(f.initial.GetOr("")), f.final.GetOr("");
    PlainLower(f.initial.GetOr(""));
    MatchesPlain(initial, TailPattern(f.parts, final), s);
    if Matches(SqlPattern(f), s) {
      TailCorrect(f.parts, final, s[|initial|..]);
      var gaps: seq<string> :| |gaps| == |f.parts| + 1 && s[|initial|..] == Interleave(gaps, f.parts, final);
      assert s == initial + Interleave(gaps, f.parts, final);
    }
    if Holds(f, s) {
      var gaps: seq<string> :| |gaps| == |f.parts| + 1 && s == initial + Interleave(gaps, f.parts, final);
      assert s[|initial|..] == Interleave(gaps, f.parts, final);
      TailCorrect(f.parts, final, s[|initial|..]);
    }
  }

  // ----- Metacharacters always break the translation -----

  /** A text as long as `s` that every metacharacter of `s` would let pass. */
  function Fill(s: string): (r: string)
    ensures |r| == |s|
  {
    seq(|s|, i requires 0 <= i < |s| => if IsMeta(s[i]) then 'a' else s[i])
  }

  lemma FillPlain(s: string)
    ensures Fill(s) == s <==> Plain(s)
  {
    assert forall i :: 0 <= i < |s| && IsMeta(s[i]) ==> Fill(s)[i] == 'a' && s[i] in s;
    if Plain(s) {
      assert Fill(s) == s;
    }
  }

  lemma {:induction false} MatchesFill(literal: string, pattern: string, s: string)
    requires Matches(pattern, s)
    ensures Matches(literal + pattern, Fill(literal) + s)
  {
    if literal == [] {
      assert literal + pattern == pattern && Fill(literal) + s == s;
    } else {
      var p, t := literal + pattern, Fill(literal) + s;
      assert p[1..] == literal[1..] + pattern;
      assert t[1..] == Fill(literal[1..]) + s;
      MatchesFill(literal[1..], pattern, s);
      if literal[0] == '%' {
        assert Matches(p, t[1..]);
      }
    }
  }

  /** All fragments glued together, after the initial one. */
  function Glue(parts: seq<string>, final: string): string {
    if parts == [] then Lower(final) else Lower(parts[0]) + Glue(parts[1..], final)
  }

  lemma PercentThenFill(p: string, rest: string, s: string)
    requires Matches(rest, s)
    ensures Matches("%" + p + rest, Fill(p) + s)
  {
    MatchesFill(p, rest, s);
    assert ("%" + p + rest)[1..] == p + rest;
  }

  lemma GlueCons(parts: seq<string>, final: string)
    requires parts != []
    ensures Fill(Glue(parts, final)) == Fill(Lower(parts[0])) + Fill(Glue(parts[1..], final))
  {
  }

  lemma {:induction false} TailMatchesFill(parts: seq<string>, final: string)
    ensures Matches(TailPattern(parts, final), Fill(Glue(parts, final)))
  {
    hide Matches, Fill;
    if parts == [] {
      var p := Lower(final);
      NothingMatches();
      PercentThenFill(p, "", "");
      assert "%" + p + "" == "%" + p && Fill(p) + "" == Fill(p);
    } else {
      TailMatchesFill(parts[1..], final);
      GlueCons(parts, final);
      PercentThenFill(Lower(parts[0]), TailPattern(parts[1..], final), Fill(Glue(parts[1..], final)));
    }
  }

  lemma NothingMatches()
    ensures Matches("", "")
  {
  }

  lemma {:induction false} NoRoomForGaps(gaps: seq<string>, parts: seq<string>, final: string)
    requires |gaps| == |parts| + 1
    ensures |Interleave(gaps, parts, final)| >= |Glue(parts, final)|
    ensures |Interleave(gaps, parts, final)| == |Glue(parts, final)| ==>
              Interleave(gaps, parts, final) == Glue(parts, final)
  {
    if parts != [] {
      NoRoomForGaps(gaps[1..], parts[1..], final);
    }
  }

  lemma {:induction false} GluePlain(parts: seq<string>, final: string)
    ensures Plain(Glue(parts, final)) <==> Plain(final) && forall p :: p in parts ==> Plain(p)
  {
    PlainLower(final);
    if parts != [] {
      PlainLower(parts[0]);
      GluePlain(parts[1..], final);
      PlainConcat(Lower(parts[0]), Glue(parts[1..], final));
      assert forall p :: p in parts <==> p == parts[0] || p in parts[1..];
    }
  }

  lemma PlainConcat(a: string, b: string)
    ensures Plain(a + b) <==> Plain(a) && Plain(b)
  {
    assert forall c :: c in a + b <==> c in a || c in b;
  }

  /** The translation is right for every value exactly when no fragment has a
      metacharacter: otherwise there is a value that the pattern lets pass and that
      the filter does not describe. */
  lemma PatternCorrectIffPlain(f: SubStringFilter)
    ensures (forall s :: Matches(SqlPattern(f), s) <==> Holds(f, s)) <==> PlainFilter(f)
  {
    if PlainFilter(f) {
      forall s
        ensures Matches(SqlPattern(f), s) <==> Holds(f, s)
      {
        PatternCorrect(f, s);
      }
    } else {
      var initial, final := Lower(f.initial.GetOr("")), f.final.GetOr("");
      var glue := initial + Glue(f.parts, final);
      var s := Fill(glue);
      TailMatchesFill(f.parts, final);
      MatchesFill(initial, TailPattern(f.parts, final), Fill(Glue(f.parts, final)));
      assert s == Fill(initial) + Fill(Glue(f.parts, final));
      PlainLower(f.initial.GetOr(""));
      GluePlain(f.parts, final);
      PlainConcat(initial, Glue(f.parts, final));
      FillPlain(glue);
      assert s != glue;
      forall gaps: seq<string> | |gaps| == |f.parts| + 1
        ensures s != initial + Interleave(gaps, f.parts, final)
      {
        NoRoomForGaps(gaps, f.parts, final);
      }
      assert Matches(SqlPattern(f), s) && !Holds(f, s);
    }
  }
}
