/**
 * `clean_html` (web_crawlar/script.py:27-38): nine regular-expression
 * substitutions applied one after the other, then `strip()`.
 *
 * Each pattern is described by `MatchAt`, the length of the match that
 * Python's backtracking engine finds at the start of a string, and each
 * `re.sub` by `Substitute`, which scans left to right, replaces a match and
 * resumes after it, and otherwise keeps one character and moves on.  None of
 * the nine patterns can match the empty string, so this scan is exactly the
 * one `re.sub` performs.
 */
module Cleaner {
  import opened Wrappers
  import opened Text

  /** The patterns of script.py:29-37, in the order they are applied. */
  datatype Pattern =
    | Script        // <script.*?>.*?</script>  with DOTALL
    | Style         // <style.*?>.*?</style>    with DOTALL
    | Comment       // <!--.*?-->               with DOTALL
    | LineBreak     // <br\s*/?>
    | ParagraphEnd  // </p>
    | Tag           // <[^>]+>
    | DottedCode    // \.\w*\d+\w*
    | Unwanted      // [^\w\s,.!?]
    | Whitespace    // \s+

  /** The class `[\w\s,.!?]`: what survives step 8. */
  predicate IsKept(c: char) { IsWord(c) || IsSpace(c) || c in ",.!?" }

  /** The characters `clean_html` can return. */
  predicate IsOutputChar(c: char) { IsWord(c) || c in " ,.!?" }

  /** `c` is a character with which a match of `p` can begin. */
  predicate CanStart(p: Pattern, c: char) {
    match p
    case Script | Style | Comment | LineBreak | ParagraphEnd | Tag => c == '<'
    case DottedCode => c == '.'
    case Unwanted => !IsKept(c)
    case Whitespace => IsSpace(c)
  }

  /**
   * `<open.*?>.*?close` with DOTALL: the first lazy group stops at the first
   * `>` after `open`; the second at the first `close` after that `>`.  When
   * there is no such `close`, stopping at a later `>` cannot find one either,
   * so there is no match.
   */
  function LazyBlock(s: string, open: string, close: string): Option<nat>
  {
    if !StartsWith(s, open) then None
    else match FindFrom(s, ">", |open|)
      case None => None
      case Some(j) =>
        match FindFrom(s, close, j + 1)
        case None => None
        case Some(k) => Some(k + |close|)
  }

  /** The length of the match of `p` at the start of `s`, if there is one. */
  function MatchAt(p: Pattern, s: string): (m: Option<nat>)
    ensures m.Some? ==> 0 < m.value <= |s| && CanStart(p, s[0])
  {
    match p
    case Script => LazyBlock(s, "<script", "</script>")
    case Style => LazyBlock(s, "<style", "</style>")
    case Comment =>
      if !StartsWith(s, "<!--") then None
      else (match FindFrom(s, "-->", 4)
        case None => None
        case Some(k) => Some(k + 3))
    case LineBreak =>
      if !StartsWith(s, "<br") then None
      else
        var m := RunEnd(s, 3, IsSpace);
        if m < |s| && s[m] == '>' then Some(m + 1)
        else if m + 1 < |s| && s[m] == '/' && s[m + 1] == '>' then Some(m + 2)
        else None
    case ParagraphEnd => if StartsWith(s, "</p>") then Some(4) else None
    case Tag =>
      if |s| == 0 || s[0] != '<' then None
      else (match FindFrom(s, ">", 1)
        case Some(m) => if m >= 2 then Some(m + 1) else None
        case None => None)
    case DottedCode =>
      if |s| == 0 || s[0] != '.' then None
      else
        var m := RunEnd(s, 1, IsWord);
        if exists j :: 1 <= j < m && IsDigit(s[j]) then Some(m) else None
    case Unwanted => if |s| > 0 && !IsKept(s[0]) then Some(1) else None
    case Whitespace => if |s| > 0 && IsSpace(s[0]) then Some(RunEnd(s, 0, IsSpace)) else None
  }

  /** `re.sub(p, repl, s)` */
  function Substitute(p: Pattern, s: string, repl: string): string
    decreases |s|
  {
    if s == [] then []
    else match MatchAt(p, s)
      case Some(n) => repl + Substitute(p, s[n..], repl)
      case None => [s[0]] + Substitute(p, s[1..], repl)
  }

  /** `str.strip()`: drops the longest leading and the longest trailing run of whitespace. */
  function Strip(s: string): (r: string)
    ensures exists a, e :: 0 <= a <= e <= |s| && r == s[a..e]
                        && (forall j :: 0 <= j < a ==> IsSpace(s[j]))
                        && (forall j :: e <= j < |s| ==> IsSpace(s[j]))
    ensures r != [] ==> !IsSpace(r[0]) && !IsSpace(r[|r| - 1])
  {
    var a := RunEnd(s, 0, IsSpace);
    if a == |s| then
      assert s[a..a] == [];
      []
    else
      var e := TrimmedEnd(s);
      assert !IsSpace(s[a]);
      s[a..e]
  }

  /** The index just after the last non-whitespace character of `s` (0 if there is none). */
  function TrimmedEnd(s: string): (e: nat)
    ensures e <= |s|
    ensures forall j :: e <= j < |s| ==> IsSpace(s[j])
    ensures e > 0 ==> !IsSpace(s[e - 1])
  {
    if s == [] || !IsSpace(s[|s| - 1]) then |s| else TrimmedEnd(s[..|s| - 1])
  }

  /** What the last line of `clean_html` leaves: whitespace only as single `' '`, none at either end. */
  predicate IsNormal(t: string) {
    && (forall i :: 0 <= i < |t| && IsSpace(t[i]) ==> t[i] == ' ')
    && (forall i :: 0 <= i < |t| - 1 ==> !(IsSpace(t[i]) && IsSpace(t[i + 1])))
    && (t != [] ==> !IsSpace(t[0]) && !IsSpace(t[|t| - 1]))
  }

  /** `clean_html(html)` */
  function CleanHtml(html: string): (text: string)
    ensures forall i :: 0 <= i < |text| ==> IsOutputChar(text[i])
    ensures IsNormal(text)
    ensures '\n' !in text
  {
    var s1 := Substitute(Script, html, "");
    var s2 := Substitute(Style, s1, "");
    var s3 := Substitute(Comment, s2, "");
    var s4 := Substitute(LineBreak, s3, "\n");
    var s5 := Substitute(ParagraphEnd, s4, "\n");
    var s6 := Substitute(Tag, s5, " ");
    var s7 := Substitute(DottedCode, s6, "");
    var s8 := Substitute(Unwanted, s7, "");
    var s9 := Substitute(Whitespace, s8, " ");
    UnwantedRemoved(s7);
    WhitespaceCollapsed(s8);
    StripKeepsNormal(s9);
    Strip(s9)
  }

  /** Stripping a string whose whitespace is already collapsed gives a string in normal form, over the same characters. */
  lemma StripKeepsNormal(s: string)
    requires forall i :: 0 <= i < |s| && IsSpace(s[i]) ==> s[i] == ' '
    requires forall i :: 0 <= i < |s| - 1 ==> !(IsSpace(s[i]) && IsSpace(s[i + 1]))
    ensures IsNormal(Strip(s))
    ensures (forall i :: 0 <= i < |s| ==> IsOutputChar(s[i])) ==>
            forall i :: 0 <= i < |Strip(s)| ==> IsOutputChar(Strip(s)[i])
  {
    var r := Strip(s);
    var a, e :| 0 <= a <= e <= |s| && r == s[a..e];
    assert forall i :: 0 <= i < |r| ==> r[i] == s[a + i];
  }

  /** After step 8 only characters of `[\w\s,.!?]` remain. */
  lemma {:induction false} UnwantedRemoved(s: string)
    ensures forall i :: 0 <= i < |Substitute(Unwanted, s, "")| ==> IsKept(Substitute(Unwanted, s, "")[i])
    decreases |s|
  {
    if s != [] {
      UnwantedRemoved(s[1..]);
    }
  }

  /**
   * Step 9 turns every maximal whitespace run into one `' '`: afterwards no
   * whitespace character other than `' '` remains and no two are adjacent; the
   * result starts with whitespace exactly when its input does.
   */
  lemma {:induction false} WhitespaceCollapsed(s: string)
    ensures var r := Substitute(Whitespace, s, " ");
            && (forall i :: 0 <= i < |r| && IsSpace(r[i]) ==> r[i] == ' ')
            && (forall i :: 0 <= i < |r| - 1 ==> !(IsSpace(r[i]) && IsSpace(r[i + 1])))
            && (s != [] ==> r != [] && (IsSpace(r[0]) <==> IsSpace(s[0])))
            && ((forall i :: 0 <= i < |s| ==> IsKept(s[i])) ==> forall i :: 0 <= i < |r| ==> IsOutputChar(r[i]))
    decreases |s|
  {
    if s != [] {
      match MatchAt(Whitespace, s)
      case Some(n) =>
        WhitespaceCollapsed(s[n..]);
      case None =>
        WhitespaceCollapsed(s[1..]);
    }
  }

  /** A prefix none of whose characters can begin a match is copied unchanged. */
  lemma {:induction false} SubstituteKeeps(p: Pattern, s: string, t: string, repl: string)
    requires forall i :: 0 <= i < |s| ==> !CanStart(p, s[i])
    ensures Substitute(p, s + t, repl) == s + Substitute(p, t, repl)
    decreases |s|
  {
    if s != [] {
      var r := Substitute(p, t, repl);
      assert (s + t)[0] == s[0] && (s + t)[1..] == s[1..] + t;
      NoMatchHere(p, s + t, repl);
      SubstituteKeeps(p, s[1..], t, repl);
      SplitFirst(s, r);
    } else {
      assert s + t == t;
    }
  }

  lemma SplitFirst(s: string, r: string)
    requires s != []
    ensures [s[0]] + (s[1..] + r) == s + r
  {
    assert s == [s[0]] + s[1..];
  }

  /** A character no match can begin with is copied, and the scan moves on. */
  lemma NoMatchHere(p: Pattern, s: string, repl: string)
    requires s != [] && !CanStart(p, s[0])
    ensures Substitute(p, s, repl) == [s[0]] + Substitute(p, s[1..], repl)
  {
  }

  /** `\w*` in step 7 */
  predicate IsWordRun(w: string) { forall i :: 0 <= i < |w| ==> IsWord(w[i]) }

  predicate HasDigit(w: string) { exists i :: 0 <= i < |w| && IsDigit(w[i]) }

  /**
   * Step 7 (script.py:35) deletes a `.` together with the whole run of word
   * characters after it when that run holds a digit, and keeps both when it
   * does not.
   */
  lemma DottedCodeRule(w: string, rest: string)
    requires IsWordRun(w)
    requires rest == [] || !IsWord(rest[0])
    ensures Substitute(DottedCode, "." + w + rest, "") ==
            (if HasDigit(w) then "" else "." + w) + Substitute(DottedCode, rest, "")
  {
    if HasDigit(w) {
      DottedCodeDeleted(w, rest);
    } else {
      DottedCodeKept(w, rest);
    }
  }

  lemma DottedCodeDeleted(w: string, rest: string)
    requires IsWordRun(w) && HasDigit(w)
    requires rest == [] || !IsWord(rest[0])
    ensures Substitute(DottedCode, "." + w + rest, "") == Substitute(DottedCode, rest, "")
  {
    var s := "." + w + rest;
    DottedCodeMatch(w, rest);
    assert s[1 + |w|..] == rest;
  }

  lemma DottedCodeKept(w: string, rest: string)
    requires IsWordRun(w) && !HasDigit(w)
    requires rest == [] || !IsWord(rest[0])
    ensures Substitute(DottedCode, "." + w + rest, "") == "." + w + Substitute(DottedCode, rest, "")
  {
    var s := "." + w + rest;
    var r := Substitute(DottedCode, rest, "");
    assert s == ['.'] + (w + rest);
    assert "." + w + r == ['.'] + (w + r);
    assert forall i :: 0 <= i < |w| ==> !CanStart(DottedCode, w[i]);
    DottedCodeMatch(w, rest);
    NoMatchAt(DottedCode, s, "");
    SubstituteKeeps(DottedCode, w, rest, "");
  }

  /** Where `p` does not match, the first character is copied and the scan moves on. */
  lemma NoMatchAt(p: Pattern, s: string, repl: string)
    requires s != [] && MatchAt(p, s).None?
    ensures Substitute(p, s, repl) == [s[0]] + Substitute(p, s[1..], repl)
  {
  }

  /** The match of step 7 at a `.` spans exactly the word run after it, and exists iff that run has a digit. */
  lemma DottedCodeMatch(w: string, rest: string)
    requires IsWordRun(w)
    requires rest == [] || !IsWord(rest[0])
    ensures MatchAt(DottedCode, "." + w + rest) == if HasDigit(w) then Some(1 + |w|) else None
  {
    var s := "." + w + rest;
    var m := RunEnd(s, 1, IsWord);
    assert forall i :: 0 <= i < |w| ==> s[i + 1] == w[i];
    RunEndIs(s, 1, IsWord, 1 + |w|);
    assert (exists j :: 1 <= j < m && IsDigit(s[j])) <==> HasDigit(w) by {
      if HasDigit(w) {
        var i :| 0 <= i < |w| && IsDigit(w[i]);
        assert s[i + 1] == w[i];
      }
    }
  }

  /** Step 9 leaves a string whose whitespace is single `' '` characters as it is. */
  lemma {:induction false} WhitespaceFixed(s: string)
    requires forall i :: 0 <= i < |s| && IsSpace(s[i]) ==> s[i] == ' '
    requires forall i :: 0 <= i < |s| - 1 ==> !(IsSpace(s[i]) && IsSpace(s[i + 1]))
    ensures Substitute(Whitespace, s, " ") == s
    decreases |s|
  {
    if s != [] {
      if IsSpace(s[0]) {
        assert RunEnd(s, 0, IsSpace) == 1 by {
          if |s| > 1 { assert !IsSpace(s[1]); }
        }
      }
      WhitespaceFixed(s[1..]);
    }
  }

  /**
   * A string in normal form made only of word characters, `,`, `!`, `?` and
   * spaces (no `.`) is a fixed point of `clean_html`.
   */
  lemma CleanHtmlFixedPoint(s: string)
    requires IsNormal(s)
    requires forall i :: 0 <= i < |s| ==> IsWord(s[i]) || s[i] in " ,!?"
    ensures CleanHtml(s) == s
  {
    PlainChars(s);
    CleanMarkupFree(s);
    assert s + [] == s;
    SubstituteKeeps(DottedCode, s, [], "");
    SubstituteKeeps(Unwanted, s, [], "");
    WhitespaceFixed(s);
    StripFixed(s);
  }

  /** Word characters, `,`, `!`, `?` and spaces: no `<`, no `.`, and all kept by step 8. */
  lemma PlainChars(s: string)
    requires forall i :: 0 <= i < |s| ==> IsWord(s[i]) || s[i] in " ,!?"
    ensures '<' !in s
    ensures forall i :: 0 <= i < |s| ==> !CanStart(DottedCode, s[i]) && !CanStart(Unwanted, s[i])
  {
    forall i | 0 <= i < |s| ensures s[i] != '<' { }
  }

  /** `str.strip()` leaves a string in normal form as it is. */
  lemma StripFixed(s: string)
    requires IsNormal(s)
    ensures Strip(s) == s
  {
    assert RunEnd(s, 0, IsSpace) == 0;
    assert s != [] ==> TrimmedEnd(s) == |s|;
  }

  /** `clean_html` is idempotent on every input whose cleaned text has no `.`. */
  lemma IdempotentWithoutDot(html: string)
    requires '.' !in CleanHtml(html)
    ensures CleanHtml(CleanHtml(html)) == CleanHtml(html)
  {
    CleanHtmlFixedPoint(CleanHtml(html));
  }

  /** Full idempotence fails: step 8 can bring a `.` next to a digit that step 7 has already passed. */
  lemma NotIdempotent()
    ensures CleanHtml(".-5") == ".5"
    ensures CleanHtml(".5") == ""
  {
    CleanDotDashFive();
    CleanDotFive();
  }

  /** No character of `s` is `<`, so steps 1 to 6 leave it unchanged. */
  lemma MarkupFree(s: string)
    requires '<' !in s
    ensures Substitute(Script, s, "") == s
    ensures Substitute(Style, s, "") == s
    ensures Substitute(Comment, s, "") == s
    ensures Substitute(LineBreak, s, "\n") == s
    ensures Substitute(ParagraphEnd, s, "\n") == s
    ensures Substitute(Tag, s, " ") == s
  {
    assert s + [] == s;
    SubstituteKeeps(Script, s, [], "");
    SubstituteKeeps(Style, s, [], "");
    SubstituteKeeps(Comment, s, [], "");
    SubstituteKeeps(LineBreak, s, [], "\n");
    SubstituteKeeps(ParagraphEnd, s, [], "\n");
    SubstituteKeeps(Tag, s, [], " ");
  }

  /** Without markup, only steps 7 to 9 and the strip act. */
  lemma CleanMarkupFree(s: string)
    requires '<' !in s
    ensures CleanHtml(s) == Strip(Substitute(Whitespace, Substitute(Unwanted, Substitute(DottedCode, s, ""), ""), " "))
  {
    MarkupFree(s);
  }

  lemma CleanDotDashFive()
    ensures CleanHtml(".-5") == ".5"
  {
    CleanMarkupFree(".-5");
    DashKeptByStep7();
    DashRemovedByStep8();
    DotFiveLast();
  }

  /** Steps 9 and the strip leave `.5` as it is. */
  lemma DotFiveLast()
    ensures Substitute(Whitespace, ".5", " ") == ".5"
    ensures Strip(".5") == ".5"
  {
    NoMatchHere(Whitespace, ".5", " ");
    assert ".5"[1..] == "5" && "5"[1..] == [];
    NoMatchHere(Whitespace, "5", " ");
    assert RunEnd(".5", 0, IsSpace) == 0;
    assert TrimmedEnd(".5") == 2;
  }

  /** Step 7 keeps `.-5`: the `.` is followed by no word character. */
  lemma DashKeptByStep7()
    ensures Substitute(DottedCode, ".-5", "") == ".-5"
  {
    DottedCodeRule("", "-5");
    assert "." + "" + "-5" == ".-5";
    NoMatchHere(DottedCode, "-5", "");
    NoMatchHere(DottedCode, "5", "");
    assert "-5"[1..] == "5" && "5"[1..] == [];
  }

  /** Step 8 deletes the `-` of `.-5`. */
  lemma DashRemovedByStep8()
    ensures Substitute(Unwanted, ".-5", "") == ".5"
  {
    NoMatchHere(Unwanted, ".-5", "");
    assert ".-5"[1..] == "-5" && "-5"[1..] == "5" && "5"[1..] == [];
    assert MatchAt(Unwanted, "-5") == Some(1);
    NoMatchHere(Unwanted, "5", "");
  }

  lemma CleanDotFive()
    ensures CleanHtml(".5") == ""
  {
    MarkupFree(".5");
    assert Substitute(DottedCode, ".5", "") == "";
  }
}
