/** Substring filters in databases where a backslash escapes the next character of a
    pattern: the translation does not escape it. */
module EscapedLike {
  import opened Wrappers
  import opened Text
  import opened Like

  // ----- The dialect -----

  /** LIKE of MySQL and Postgres: a backslash makes the next character stand for itself. */
  predicate MatchesEscaped(pattern: string, s: string)
    decreases |pattern| + |s|
  {
    if pattern == [] then s == []
    else if pattern[0] == '\\' && |pattern| > 1 then
      s != [] && s[0] == pattern[1] && MatchesEscaped(pattern[2..], s[1..])
    else if pattern[0] == '%' then MatchesEscaped(pattern[1..], s) || (s != [] && MatchesEscaped(pattern, s[1..]))
    else s != [] && (pattern[0] == '_' || pattern[0] == s[0]) && MatchesEscaped(pattern[1..], s[1..])
  }

  /** No backslash before the last character. */
  predicate EscapesNothing(pattern: string) {
    forall i :: 0 <= i < |pattern| - 1 ==> pattern[i] != '\\'
  }

  /** Then the dialects agree. */
  lemma {:induction false} DialectsAgree(pattern: string, s: string)
    requires EscapesNothing(pattern)
    ensures MatchesEscaped(pattern, s) <==> Matches(pattern, s)
    decreases |pattern| + |s|
  {
    if pattern != [] {
      assert forall i :: 0 <= i < |pattern[1..]| ==> pattern[1..][i] == pattern[i + 1];
      if pattern[0] == '%' {
        DialectsAgree(pattern[1..], s);
        if s != [] {
          DialectsAgree(pattern, s[1..]);
        }
      } else if s != [] {
        DialectsAgree(pattern[1..], s[1..]);
      }
    }
  }

  /** No fragment has a backslash, but that the final one may end with one. */
  predicate NoBackslash(f: SubStringFilter) {
    '\\' !in f.initial.GetOr("") && EscapesNothing(f.final.GetOr("")) && forall p :: p in f.parts ==> '\\' !in p
  }

  lemma EscapesConcat(a: string, b: string)
    requires b != []
    ensures EscapesNothing(a + b) <==> '\\' !in a && EscapesNothing(b)
  {
    var p := a + b;
    if EscapesNothing(p) {
      assert forall i :: 0 <= i < |a| ==> p[i] == a[i];
      assert forall i :: 0 <= i < |b| ==> p[|a| + i] == b[i];
    }
  }

  lemma EscapesLower(s: string)
    ensures EscapesNothing(Lower(s)) <==> EscapesNothing(s)
  {
    assert forall i :: 0 <= i < |s| ==> (Lower(s)[i] == '\\' <==> s[i] == '\\');
  }

  lemma EscapesPercent(rest: string)
    ensures EscapesNothing("%" + rest) <==> EscapesNothing(rest)
  {
    if rest != [] {
      EscapesConcat("%", rest);
    }
  }

  lemma {:induction false} TailEscapesNothing(parts: seq<string>, final: string)
    ensures EscapesNothing(TailPattern(parts, final)) <==>
      EscapesNothing(final) && forall p :: p in parts ==> '\\' !in p
  {
    if parts == [] {
      EscapesLower(final);
      EscapesPercent(Lower(final));
    } else {
      TailEscapesNothing(parts[1..], final);
      LowerKeepsNonLetter(parts[0], '\\');
      TailPatternLength(parts[1..], final);
      EscapesConcat("%" + Lower(parts[0]), TailPattern(parts[1..], final));
      assert forall p :: p in parts <==> p == parts[0] || p in parts[1..];
    }
  }

  lemma PatternEscapesNothing(f: SubStringFilter)
    ensures EscapesNothing(SqlPattern(f)) <==> NoBackslash(f)
  {
    LowerKeepsNonLetter(f.initial.GetOr(""), '\\');
    TailPatternLength(f.parts, f.final.GetOr(""));
    TailEscapesNothing(f.parts, f.final.GetOr(""));
    EscapesConcat(Lower(f.initial.GetOr("")), TailPattern(f.parts, f.final.GetOr("")));
  }

  /** There too the pattern is right for plain fragments without backslash. */
  lemma PatternCorrectEscaped(f: SubStringFilter, s: string)
    requires PlainFilter(f) && NoBackslash(f)
    ensures MatchesEscaped(SqlPattern(f), s) <==> Holds(f, s)
  {
    PatternEscapesNothing(f);
    DialectsAgree(SqlPattern(f), s);
    PatternCorrect(f, s);
  }

  // ----- Backslashes always break the translation -----

  /** A pattern with its own percent signs told apart from the characters of fragments. */
  datatype Symbol = Gap | Char(c: char)

  function PatternText(symbols: seq<Symbol>): (r: string)
    ensures |r| == |symbols|
  {
    seq(|symbols|, i requires 0 <= i < |symbols| => if symbols[i].Gap? then '%' else symbols[i].c)
  }

  function Chars(symbols: seq<Symbol>): string {
    if symbols == [] then ""
    else (if symbols[0].Gap? then "" else [symbols[0].c]) + Chars(symbols[1..])
  }

  function Spelled(s: string): (r: seq<Symbol>)
    ensures |r| == |s|
  {
    seq(|s|, i requires 0 <= i < |s| => Char(s[i]))
  }

  function TailSymbols(parts: seq<string>, final: string): seq<Symbol> {
    if parts == [] then [Gap] + Spelled(Lower(final))
    else [Gap] + Spelled(Lower(parts[0])) + TailSymbols(parts[1..], final)
  }

  lemma TextConcat(a: seq<Symbol>, b: seq<Symbol>)
    ensures PatternText(a + b) == PatternText(a) + PatternText(b)
  {
  }

  lemma {:induction false} CharsConcat(a: seq<Symbol>, b: seq<Symbol>)
    ensures Chars(a + b) == Chars(a) + Chars(b)
  {
    if a == [] {
      assert a + b == b;
    } else {
      assert (a + b)[1..] == a[1..] + b;
      CharsConcat(a[1..], b);
    }
  }

  lemma {:induction false} LiteralReads(s: string)
    ensures PatternText(Spelled(s)) == s && Chars(Spelled(s)) == s
  {
    if s != [] {
      assert Spelled(s)[1..] == Spelled(s[1..]);
      LiteralReads(s[1..]);
    }
  }

  lemma GapReads(s: string)
    ensures PatternText([Gap] + Spelled(s)) == "%" + s && Chars([Gap] + Spelled(s)) == s
  {
    LiteralReads(s);
    assert ([Gap] + Spelled(s))[1..] == Spelled(s);
  }

  lemma {:induction false} TailReads(parts: seq<string>, final: string)
    ensures PatternText(TailSymbols(parts, final)) == TailPattern(parts, final)
    ensures Chars(TailSymbols(parts, final)) == Glue(parts, final)
  {
    if parts == [] {
      GapReads(Lower(final));
    } else {
      var head, tail := [Gap] + Spelled(Lower(parts[0])), TailSymbols(parts[1..], final);
      GapReads(Lower(parts[0]));
      TailReads(parts[1..], final);
      TextConcat(head, tail);
      CharsConcat(head, tail);
    }
  }

  /** A shortest text that the pattern matches. */
  function Shortest(pattern: string): string {
    if pattern == [] then ""
    else if pattern[0] == '\\' && |pattern| > 1 then [pattern[1]] + Shortest(pattern[2..])
    else if pattern[0] == '%' then Shortest(pattern[1..])
    else [if pattern[0] == '_' then 'a' else pattern[0]] + Shortest(pattern[1..])
  }

  lemma {:induction false} ShortestMatches(pattern: string)
    ensures MatchesEscaped(pattern, Shortest(pattern))
  {
    if pattern != [] {
      if pattern[0] == '\\' && |pattern| > 1 {
        ShortestMatches(pattern[2..]);
      } else {
        ShortestMatches(pattern[1..]);
      }
    }
  }

  /** No fragment has a metacharacter, or a backslash that has something to escape. */
  predicate Harmless(symbols: seq<Symbol>) {
    forall i :: 0 <= i < |symbols| && symbols[i].Char? ==>
      !IsMeta(symbols[i].c) && (symbols[i].c == '\\' ==> i == |symbols| - 1)
  }

  lemma TextCons(symbols: seq<Symbol>, n: nat)
    requires n <= |symbols|
    ensures PatternText(symbols)[n..] == PatternText(symbols[n..])
  {
  }

  /** The shortest text is never longer than the fragments together, and differs from
      them if one of them does harm. */
  lemma {:induction false} ShortestIsShort(symbols: seq<Symbol>)
    ensures |Shortest(PatternText(symbols))| <= |Chars(symbols)|
    ensures Shortest(PatternText(symbols)) == Chars(symbols) ==> Harmless(symbols)
    decreases |symbols|
  {
    if symbols != [] {
      var p, rest := PatternText(symbols), symbols[1..];
      TextCons(symbols, 1);
      ShortestIsShort(rest);
      if p[0] == '\\' && |p| > 1 {
        TextCons(symbols, 2);
        assert rest[1..] == symbols[2..];
        ShortestIsShort(symbols[2..]);
        assert Chars(symbols) == ['\\'] + Chars(rest) && Shortest(p)[0] == p[1];
        assert |Chars(rest)| == |Chars(symbols[2..])| + if rest[0].Gap? then 0 else 1;
      } else {
        if p[0] != '%' {
          assert Shortest(p)[1..] == Shortest(p[1..]) && Chars(symbols)[1..] == Chars(rest);
        }
        assert forall i :: 0 <= i < |rest| ==> symbols[i + 1] == rest[i];
      }
    }
  }

  lemma {:induction false} HarmlessChars(symbols: seq<Symbol>)
    requires Harmless(symbols)
    ensures Plain(Chars(symbols)) && EscapesNothing(PatternText(symbols))
  {
    if symbols != [] {
      var rest := symbols[1..];
      assert forall i :: 0 <= i < |rest| ==> rest[i] == symbols[i + 1];
      HarmlessChars(rest);
    }
  }

  /** In these databases the translation is right for every value exactly when no
      fragment has a metacharacter, or a backslash other than a last one. */
  lemma PatternCorrectIffHarmless(f: SubStringFilter)
    ensures (forall s :: MatchesEscaped(SqlPattern(f), s) <==> Holds(f, s)) <==> PlainFilter(f) && NoBackslash(f)
  {
    if PlainFilter(f) && NoBackslash(f) {
      forall s
        ensures MatchesEscaped(SqlPattern(f), s) <==> Holds(f, s)
      {
        PatternCorrectEscaped(f, s);
      }
    } else {
      var s := HarmfulText(f);
      assert MatchesEscaped(SqlPattern(f), s) && !Holds(f, s);
    }
  }

  lemma HarmfulText(f: SubStringFilter) returns (s: string)
    requires !(PlainFilter(f) && NoBackslash(f))
    ensures MatchesEscaped(SqlPattern(f), s) && !Holds(f, s)
  {
    hide MatchesEscaped, Harmless, Shortest, PatternText, Chars;
    var initial, final := Lower(f.initial.GetOr("")), f.final.GetOr("");
    var head, tail := Spelled(initial), TailSymbols(f.parts, final);
    LiteralReads(initial);
    TailReads(f.parts, final);
    TextConcat(head, tail);
    CharsConcat(head, tail);
    var glue := initial + Glue(f.parts, final);
    assert PatternText(head + tail) == SqlPattern(f) && Chars(head + tail) == glue;
    s := Shortest(SqlPattern(f));
    ShortestMatches(SqlPattern(f));
    ShortestIsShort(head + tail);
    if s == glue {
      HarmlessChars(head + tail);
      PatternEscapesNothing(f);
      PlainLower(f.initial.GetOr(""));
      GluePlain(f.parts, final);
      PlainConcat(initial, Glue(f.parts, final));
      assert false;
    }
    forall gaps: seq<string> | |gaps| == |f.parts| + 1
      ensures s != initial + Interleave(gaps, f.parts, final)
    {
      NoRoomForGaps(gaps, f.parts, final);
    }
  }

  /** A fragment of one backslash takes away the meaning of the percent sign after it. */
  lemma BackslashMisread()
    ensures var f := SubStringFilter(Some("\\"), [], None);
      PlainFilter(f) && MatchesEscaped(SqlPattern(f), "%") && !Holds(f, "%")
  {
    var f := SubStringFilter(Some("\\"), [], None);
    assert Lower("\\") == "\\" && Lower("") == "";
    assert SqlPattern(f) == "\\%";
    assert MatchesEscaped("", "");
  }
}
