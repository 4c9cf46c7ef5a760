/**
 * The text normaliser `clean_text` of the ingestion command
 * (src/chatbot/management/commands/ingest_law_data.py, lines 13-19).
 *
 * It runs three substitutions and a strip, in this order:
 *   1. `re.sub(r'\[\w+\]', '', text)` removes bracketed footnote markers;
 *   2. the characters U+FFEF and U+FEFF are deleted;
 *   3. `re.sub(r'\s+', ' ', text)` turns every whitespace run into one
 *      space, and `.strip()` removes whitespace from both ends.
 * The empty string is answered with "" before any of that.
 */
module Normalizer {

  /** Python's `str.isspace()`: the class `\s` matches in a str pattern and
      the characters `strip()` removes. */
  predicate IsSpace(c: char) {
    c == ' ' || '\t' <= c <= '\r' || '\U{1C}' <= c <= '\U{1F}'
    || c == '\U{85}' || c == '\U{A0}' || c == '\U{1680}'
    || '\U{2000}' <= c <= '\U{200A}' || c == '\U{2028}' || c == '\U{2029}'
    || c == '\U{202F}' || c == '\U{205F}' || c == '\U{3000}'
  }

  /** The word class `\w` (the characters `str.isalnum()` accepts, and the
      underscore), restricted to the blocks a Vietnamese statute is written
      in: ASCII letters and digits, the underscore, the Latin-1 letters and
      numerals (ª ² ³ µ ¹ º ¼ ½ ¾ and U+00C0-U+00FF but × and ÷), and the
      Latin Extended-A/B and Latin Extended Additional letters. */
  predicate IsWordChar(c: char) {
    'a' <= c <= 'z' || 'A' <= c <= 'Z' || '0' <= c <= '9' || c == '_'
    || c == '\U{AA}' || c == '\U{B2}' || c == '\U{B3}' || c == '\U{B5}'
    || c == '\U{B9}' || c == '\U{BA}' || '\U{BC}' <= c <= '\U{BE}'
    || ('\U{C0}' <= c <= '\U{24F}' && c != '\U{D7}' && c != '\U{F7}')
    || '\U{1E00}' <= c <= '\U{1EFF}'
  }

  /** The two characters deleted by name: U+FEFF (byte order mark) and U+FFEF. */
  predicate IsStrayMark(c: char) {
    c == '\U{FEFF}' || c == '\U{FFEF}'
  }

  // ---------------------------------------------------------------------
  // Stage 1: bracketed markers `[\w+]`
  // ---------------------------------------------------------------------

  /** A whole bracketed marker: `[`, one or more word characters, `]`. */
  predicate IsMarker(m: string) {
    |m| >= 3 && m[0] == '[' && m[|m| - 1] == ']'
    && forall i :: 0 < i < |m| - 1 ==> IsWordChar(m[i])
  }

  /** Length of the longest prefix of s made of word characters. */
  function WordRun(s: string): (n: nat)
    ensures n <= |s|
    ensures forall i :: 0 <= i < n ==> IsWordChar(s[i])
    ensures n < |s| ==> !IsWordChar(s[n])
  {
    if s != [] && IsWordChar(s[0]) then 1 + WordRun(s[1..]) else 0
  }

  /** Length of the marker the regex matches at the start of s, or 0 when it
      matches nothing there: `[`, the word run after it, and `]`. */
  function MarkerLength(s: string): (n: nat)
    ensures n <= |s|
  {
    if |s| > 0 && s[0] == '[' then
      var w := WordRun(s[1..]);
      if w > 0 && 1 + w < |s| && s[1 + w] == ']' then w + 2 else 0
    else 0
  }

  /** The match, when there is one, is a marker, and it is the only marker
      that is a prefix of s. */
  lemma MarkerLengthIsMatch(s: string)
    ensures var n := MarkerLength(s);
            (n == 0 || IsMarker(s[..n]))
            && forall k :: 0 <= k <= |s| && IsMarker(s[..k]) ==> k == n
  {
    MarkerPrefixes(s);
    var n := MarkerLength(s);
    if n > 0 {
      var m := s[..n];
      forall i | 0 < i < n - 1 ensures IsWordChar(m[i]) {
        assert m[i] == s[1..][i - 1];
      }
    }
  }

  /** WordRun stops exactly at the first character that is not a word character. */
  lemma {:induction false} WordRunStopsAt(s: string, m: nat)
    requires m < |s| && !IsWordChar(s[m])
    requires forall i :: 0 <= i < m ==> IsWordChar(s[i])
    ensures WordRun(s) == m
  {
    if m > 0 {
      WordRunStopsAt(s[1..], m - 1);
    }
  }

  /** Every marker prefix of s is `[`, then the word run after it, then `]`:
      `]` is not a word character, so the first `]` closes the marker. */
  lemma MarkerPrefixes(s: string)
    ensures forall k :: 0 <= k <= |s| && IsMarker(s[..k]) ==>
              s[0] == '[' && WordRun(s[1..]) == k - 2 && s[k - 1] == ']'
  {
    forall k | 0 <= k <= |s| && IsMarker(s[..k])
      ensures s[0] == '[' && WordRun(s[1..]) == k - 2 && s[k - 1] == ']'
    {
      var m := s[..k];
      forall i | 0 <= i < k - 2 ensures IsWordChar(s[1..][i]) {
        assert s[1..][i] == m[i + 1];
      }
      assert s[1..][k - 2] == m[k - 1] == ']';
      WordRunStopsAt(s[1..], k - 2);
    }
  }

  /** Stage 1, `re.sub(r'\[\w+\]', '', s)`: a left-to-right scan that deletes
      each marker found and keeps every other character. */
  function RemoveMarkers(s: string): (r: string)
    ensures |r| <= |s|
    decreases |s|
  {
    if s == [] then []
    else
      var n := MarkerLength(s);
      if n > 0 then RemoveMarkers(s[n..]) else [s[0]] + RemoveMarkers(s[1..])
  }

  /** Text without an opening bracket passes stage 1 unchanged. */
  lemma {:induction false} RemoveMarkersKeepsPlainText(s: string)
    requires forall i :: 0 <= i < |s| ==> s[i] != '['
    ensures RemoveMarkers(s) == s
    decreases |s|
  {
    if s != [] {
      assert MarkerLength(s) == 0;
      RemoveMarkersKeepsPlainText(s[1..]);
      assert s == [s[0]] + s[1..];
    }
  }

  /** A marker in front of s is deleted whole, and the scan resumes after it. */
  lemma RemoveMarkersDropsMarker(m: string, s: string)
    requires IsMarker(m)
    ensures RemoveMarkers(m + s) == RemoveMarkers(s)
  {
    var t := m + s;
    assert t[..|m|] == m;
    MarkerLengthIsMatch(t);
    assert MarkerLength(t) == |m|;
    assert t[|m|..] == s;
  }

  // ---------------------------------------------------------------------
  // Stage 2: the two stray characters
  // ---------------------------------------------------------------------

  /** No character of s is U+FEFF or U+FFEF. */
  predicate NoStrayMarks(s: string) {
    forall i :: 0 <= i < |s| ==> !IsStrayMark(s[i])
  }

  /** Stage 2, the two `replace` calls that delete U+FFEF and U+FEFF: every other
      character is kept, in order. */
  function RemoveStrayMarks(s: string): string {
    if s == [] then []
    else if IsStrayMark(s[0]) then RemoveStrayMarks(s[1..])
    else [s[0]] + RemoveStrayMarks(s[1..])
  }

  /** The result of stage 2 holds neither stray character, text without them
      passes unchanged, and the result is never longer. */
  lemma {:induction false} RemoveStrayMarksClean(s: string)
    ensures NoStrayMarks(RemoveStrayMarks(s))
    ensures NoStrayMarks(s) ==> RemoveStrayMarks(s) == s
    ensures |RemoveStrayMarks(s)| <= |s|
    decreases |s|
  {
    if s != [] {
      RemoveStrayMarksClean(s[1..]);
      var t := RemoveStrayMarks(s[1..]);
      if !IsStrayMark(s[0]) {
        var r := [s[0]] + t;
        assert forall i :: 0 < i < |r| ==> r[i] == t[i - 1];
        if NoStrayMarks(s) {
          assert NoStrayMarks(s[1..]) by {
            assert forall i :: 0 <= i < |s[1..]| ==> s[1..][i] == s[i + 1];
          }
          assert s == [s[0]] + s[1..];
        }
      }
    }
  }

  // ---------------------------------------------------------------------
  // Stage 3: whitespace runs and the strip
  // ---------------------------------------------------------------------

  /** No two neighbouring characters of s are both whitespace. */
  predicate NoDoubleSpace(s: string) {
    forall i :: 0 < i < |s| ==> !(IsSpace(s[i - 1]) && IsSpace(s[i]))
  }

  /** Every whitespace character of s is the plain space ' '. */
  predicate OnlyPlainSpaces(s: string) {
    forall i :: 0 <= i < |s| && IsSpace(s[i]) ==> s[i] == ' '
  }

  /** Length of the longest prefix of s made of whitespace. */
  function SpaceRun(s: string): (n: nat)
    ensures n <= |s|
    ensures n < |s| ==> !IsSpace(s[n])
  {
    if s != [] && IsSpace(s[0]) then 1 + SpaceRun(s[1..]) else 0
  }

  /** The run SpaceRun measures is all whitespace. */
  lemma {:induction false} SpaceRunIsSpace(s: string)
    ensures forall i :: 0 <= i < SpaceRun(s) ==> IsSpace(s[i])
    decreases |s|
  {
    if s != [] && IsSpace(s[0]) {
      SpaceRunIsSpace(s[1..]);
      assert forall i :: 0 < i < SpaceRun(s) ==> s[i] == s[1..][i - 1];
    }
  }

  /** `re.sub(r'\s+', ' ', s)`: each maximal whitespace run becomes one ' '. */
  function CollapseSpaces(s: string): string
    decreases |s|
  {
    if s == [] then []
    else if IsSpace(s[0]) then [' '] + CollapseSpaces(s[SpaceRun(s)..])
    else [s[0]] + CollapseSpaces(s[1..])
  }

  /** A suffix of text without stray marks has none either. */
  lemma SuffixKeepsNoStrayMarks(s: string, n: nat)
    requires n <= |s| && NoStrayMarks(s)
    ensures NoStrayMarks(s[n..])
  {
    assert forall i :: 0 <= i < |s[n..]| ==> s[n..][i] == s[i + n];
  }

  /** The collapse is empty exactly for empty text, starts with whitespace
      exactly when the text does, has single plain spaces, and keeps the
      absence of stray marks. */
  lemma {:induction false} CollapseSpacesShape(s: string)
    ensures var r := CollapseSpaces(s);
            (r == [] <==> s == [])
            && (r != [] ==> (IsSpace(r[0]) <==> IsSpace(s[0])))
            && NoDoubleSpace(r) && OnlyPlainSpaces(r)
            && (NoStrayMarks(s) ==> NoStrayMarks(r))
    decreases |s|
  {
    if s != [] {
      var n := if IsSpace(s[0]) then SpaceRun(s) else 1;
      var rest := s[n..];
      CollapseSpacesShape(rest);
      var c := if IsSpace(s[0]) then ' ' else s[0];
      assert CollapseSpaces(s) == [c] + CollapseSpaces(rest);
      ConsShape(c, CollapseSpaces(rest));
      if NoStrayMarks(s) {
        SuffixKeepsNoStrayMarks(s, n);
      }
    }
  }

  /** Putting c in front of collapsed text t keeps single plain spaces when
      c is not whitespace, or is ' ' in front of text not starting with
      whitespace. */
  lemma ConsShape(c: char, t: string)
    requires NoDoubleSpace(t) && OnlyPlainSpaces(t)
    requires IsSpace(c) ==> c == ' ' && (t == [] || !IsSpace(t[0]))
    ensures var r := [c] + t;
            NoDoubleSpace(r) && OnlyPlainSpaces(r)
            && (!IsStrayMark(c) && NoStrayMarks(t) ==> NoStrayMarks(r))
  {
    var r := [c] + t;
    assert forall i :: 0 < i < |r| ==> r[i] == t[i - 1];
  }

  /** `lstrip()`: s without its leading whitespace. */
  function TrimStart(s: string): string {
    if s != [] && IsSpace(s[0]) then TrimStart(s[1..]) else s
  }

  /** `rstrip()`: s without its trailing whitespace. */
  function TrimEnd(s: string): string {
    if s != [] && IsSpace(s[|s| - 1]) then TrimEnd(s[..|s| - 1]) else s
  }

  /** `lstrip()` keeps a suffix, removes only whitespace, and leaves no
      whitespace in front. */
  lemma {:induction false} TrimStartShape(s: string)
    ensures var r := TrimStart(s);
            |r| <= |s| && r == s[|s| - |r|..]
            && (forall i :: 0 <= i < |s| - |r| ==> IsSpace(s[i]))
            && (r == [] || !IsSpace(r[0]))
  {
    if s != [] && IsSpace(s[0]) {
      TrimStartShape(s[1..]);
      var r := TrimStart(s[1..]);
      assert s[1..][|s| - 1 - |r|..] == s[|s| - |r|..];
      assert forall i :: 0 < i < |s| - |r| ==> s[i] == s[1..][i - 1];
    }
  }

  /** `rstrip()` keeps a prefix, removes only whitespace, and leaves no
      whitespace at the end. */
  lemma {:induction false} TrimEndShape(s: string)
    ensures var r := TrimEnd(s);
            |r| <= |s| && r == s[..|r|]
            && (forall i :: |r| <= i < |s| ==> IsSpace(s[i]))
            && (r == [] || !IsSpace(r[|r| - 1]))
  {
    if s != [] && IsSpace(s[|s| - 1]) {
      var init := s[..|s| - 1];
      TrimEndShape(init);
      var r := TrimEnd(init);
      assert init[..|r|] == s[..|r|];
      assert forall i :: |r| <= i < |init| ==> s[i] == init[i];
    }
  }

  /** A slice keeps the three character-level properties. */
  lemma SliceKeeps(s: string, i: nat, j: nat)
    requires i <= j <= |s|
    ensures NoDoubleSpace(s) ==> NoDoubleSpace(s[i..j])
    ensures OnlyPlainSpaces(s) ==> OnlyPlainSpaces(s[i..j])
    ensures NoStrayMarks(s) ==> NoStrayMarks(s[i..j])
  {
    var t := s[i..j];
    assert forall k :: 0 <= k < |t| ==> t[k] == s[i + k];
  }

  /** `strip()`: whitespace is removed from both ends. */
  function Strip(s: string): string {
    TrimEnd(TrimStart(s))
  }

  /** The strip leaves no whitespace at either end and keeps the
      character-level properties of the text, being a slice of it. */
  lemma StripShape(s: string)
    ensures var r := Strip(s);
            (r == [] || (!IsSpace(r[0]) && !IsSpace(r[|r| - 1])))
            && (NoDoubleSpace(s) ==> NoDoubleSpace(r))
            && (OnlyPlainSpaces(s) ==> OnlyPlainSpaces(r))
            && (NoStrayMarks(s) ==> NoStrayMarks(r))
  {
    var a := TrimStart(s);
    var b := TrimEnd(a);
    assert a == s[|s| - |a|..] && (a == [] || !IsSpace(a[0])) by {
      TrimStartShape(s);
    }
    assert b == a[..|b|] && (b == [] || !IsSpace(b[|b| - 1])) by {
      TrimEndShape(a);
    }
    assert b == s[|s| - |a|..|s| - |a| + |b|];
    SliceKeeps(s, |s| - |a|, |s| - |a| + |b|);
  }

  /** The two stages that delete characters, as the normaliser applies them. */
  function Scrub(s: string): string {
    RemoveStrayMarks(RemoveMarkers(s))
  }

  /** `clean_text`: the empty string is answered at once; anything else goes
      through marker removal, stray-mark removal, whitespace collapse and the
      strip. */
  function CleanText(s: string): string {
    if s == "" then "" else Strip(CollapseSpaces(Scrub(s)))
  }

  /** What `clean_text` guarantees: "" for "", and otherwise no whitespace
      at either end, no two whitespace characters in a row, no whitespace
      other than ' ', and neither of the two stray characters. */
  lemma CleanTextIsTidy(s: string)
    ensures s == "" ==> CleanText(s) == ""
    ensures var r := CleanText(s); r == [] || (!IsSpace(r[0]) && !IsSpace(r[|r| - 1]))
    ensures NoDoubleSpace(CleanText(s))
    ensures OnlyPlainSpaces(CleanText(s))
    ensures NoStrayMarks(CleanText(s))
  {
    if s != "" {
      var t := Scrub(s);
      RemoveStrayMarksClean(RemoveMarkers(s));
      CollapseSpacesShape(t);
      StripShape(CollapseSpaces(t));
    }
  }

  // ---------------------------------------------------------------------
  // The reference definition: clean_text(s) == " ".join(scrubbed.split())
  // ---------------------------------------------------------------------

  /** Length of the longest prefix of s without whitespace. */
  function InkRun(s: string): (n: nat)
    ensures n <= |s|
    ensures n < |s| ==> IsSpace(s[n])
  {
    if s != [] && !IsSpace(s[0]) then 1 + InkRun(s[1..]) else 0
  }

  /** The run InkRun measures holds no whitespace. */
  lemma {:induction false} InkRunIsInk(s: string)
    ensures forall i :: 0 <= i < InkRun(s) ==> !IsSpace(s[i])
    decreases |s|
  {
    if s != [] && !IsSpace(s[0]) {
      InkRunIsInk(s[1..]);
      assert forall i :: 0 < i < InkRun(s) ==> s[i] == s[1..][i - 1];
    }
  }

  /** Python's `s.split()`: the maximal runs of non-whitespace, in order. */
  function Words(s: string): seq<string>
    decreases |s|
  {
    if s == [] then []
    else if IsSpace(s[0]) then Words(s[1..])
    else
      var n := InkRun(s);
      [s[..n]] + Words(s[n..])
  }

  /** Every element of ws is a non-empty run of non-whitespace. */
  predicate AllWords(ws: seq<string>) {
    forall k :: 0 <= k < |ws| ==> ws[k] != [] && forall i :: 0 <= i < |ws[k]| ==> !IsSpace(ws[k][i])
  }

  /** The pieces of `split()` are non-empty and hold no whitespace. */
  lemma {:induction false} WordsAreWords(s: string)
    ensures AllWords(Words(s))
    decreases |s|
  {
    if s != [] {
      if IsSpace(s[0]) {
        WordsAreWords(s[1..]);
      } else {
        var n := InkRun(s);
        WordsAreWords(s[n..]);
        InkRunIsInk(s);
        var ws := Words(s);
        assert ws == [s[..n]] + Words(s[n..]);
        assert forall k :: 0 < k < |ws| ==> ws[k] == Words(s[n..])[k - 1];
      }
    }
  }

  /** Python's `" ".join(ws)`. */
  function JoinWords(ws: seq<string>): string {
    if ws == [] then ""
    else if |ws| == 1 then ws[0]
    else ws[0] + " " + JoinWords(ws[1..])
  }

  /** Joined words that are all non-empty end in a non-space character. */
  lemma {:induction false} JoinWordsEnds(ws: seq<string>)
    requires AllWords(ws)
    ensures var j := JoinWords(ws); j == [] <==> ws == []
    ensures var j := JoinWords(ws); j != [] ==> !IsSpace(j[0]) && !IsSpace(j[|j| - 1])
  {
    if |ws| > 1 {
      JoinWordsEnds(ws[1..]);
      var rest := JoinWords(ws[1..]);
      var j := ws[0] + " " + rest;
      assert j[0] == ws[0][0];
      assert j[|j| - 1] == rest[|rest| - 1];
    }
  }

  /** Leading whitespace does not change the words. */
  lemma {:induction false} WordsSkipSpaces(s: string)
    ensures Words(s) == Words(s[SpaceRun(s)..])
    decreases |s|
  {
    if s != [] && IsSpace(s[0]) {
      WordsSkipSpaces(s[1..]);
      assert s[1..][SpaceRun(s[1..])..] == s[SpaceRun(s)..];
    } else {
      assert s[0..] == s;
    }
  }

  /** A run of non-space characters passes the collapse unchanged. */
  lemma {:induction false} CollapseInk(s: string, n: nat)
    requires n <= InkRun(s)
    ensures CollapseSpaces(s) == s[..n] + CollapseSpaces(s[n..])
    decreases n
  {
    if n > 0 {
      var tl := s[1..];
      assert CollapseSpaces(s) == [s[0]] + CollapseSpaces(tl) && n - 1 <= InkRun(tl) by {
        assert s != [] && !IsSpace(s[0]);
      }
      CollapseInk(tl, n - 1);
      ConsSlices(s, n, CollapseSpaces(s[n..]));
    } else {
      assert s[..n] == [] && s[n..] == s;
    }
  }

  /** Splitting off the head element of the first n: the regrouping the
      inductive step of CollapseInk needs. */
  lemma ConsSlices<T>(s: seq<T>, n: nat, t: seq<T>)
    requires 0 < n <= |s|
    ensures [s[0]] + (s[1..][..n - 1] + t) == s[..n] + t
    ensures s[1..][n - 1..] == s[n..]
  {
    assert s[..n] == [s[0]] + s[1..][..n - 1];
  }

  /** Regrouping a concatenation of four strings. */
  lemma ConcatRegroup(a: string, b: string, c: string, d: string)
    ensures a + (b + (c + d)) == a + b + c + d
  {
  }

  /** One space when s ends in whitespace, nothing otherwise. */
  function Trail(s: string): string {
    if s != [] && IsSpace(s[|s| - 1]) then " " else ""
  }

  /** For text that does not start with whitespace, the collapse is the
      joined words plus one space if the text ended in whitespace. */
  lemma {:induction false} CollapseIsJoin(s: string)
    requires s == [] || !IsSpace(s[0])
    ensures CollapseSpaces(s) == JoinWords(Words(s)) + Trail(s)
    decreases |s|, 1
  {
    if s != [] {
      var n := InkRun(s);
      CollapseInk(s, n);
      assert Words(s) == [s[..n]] + Words(s[n..]);
      if n == |s| {
        InkRunIsInk(s);
        assert s[..n] == s && s[n..] == [];
      } else {
        CollapseAfterWord(s, n);
      }
    }
  }

  /** The inductive step of CollapseIsJoin: a word of length n, then a
      whitespace run, then the rest of the text. */
  lemma {:induction false} CollapseAfterWord(s: string, n: nat)
    requires 0 < n < |s| && n == InkRun(s)
    requires CollapseSpaces(s) == s[..n] + CollapseSpaces(s[n..])
    requires Words(s) == [s[..n]] + Words(s[n..])
    ensures CollapseSpaces(s) == JoinWords(Words(s)) + Trail(s)
    decreases |s|, 0
  {
    var w, rest := s[..n], s[n..];
    var tail := rest[SpaceRun(rest)..];
    WordsSkipSpaces(rest);
    CollapseIsJoin(tail);
    assert CollapseSpaces(rest) == [' '] + CollapseSpaces(tail);
    assert s[|s| - 1] == rest[|rest| - 1];
    var jt := JoinWords(Words(tail));
    if tail == [] {
      SpaceRunIsSpace(rest);
      assert [w] + [] == [w];
    } else {
      assert !IsSpace(tail[0]);
      assert Words(tail) != [];
      assert ([w] + Words(tail))[1..] == Words(tail);
      assert JoinWords(Words(s)) == w + " " + jt;
      assert rest[|rest| - 1] == tail[|tail| - 1];
      ConcatRegroup(w, " ", jt, Trail(tail));
    }
  }

  /** The collapse without its leading space: the joined words, then one
      space if the text ended in whitespace after some word. */
  lemma CollapseTrimmed(t: string)
    ensures TrimStart(CollapseSpaces(t)) == JoinWords(Words(t)) + (if Words(t) == [] then "" else Trail(t))
  {
    var m := SpaceRun(t);
    var u := t[m..];
    WordsSkipSpaces(t);
    CollapseIsJoin(u);
    LeadingInkKept(u);
    if m > 0 {
      assert CollapseSpaces(t) == [' '] + CollapseSpaces(u);
      assert ([' '] + CollapseSpaces(u))[1..] == CollapseSpaces(u);
    } else {
      assert u == t;
    }
    if u != [] {
      assert Words(u) == [u[..InkRun(u)]] + Words(u[InkRun(u)..]);
      assert u[|u| - 1] == t[|t| - 1];
    }
  }

  /** Collapsing text that does not start with whitespace leaves nothing for
      `lstrip()` to remove. */
  lemma LeadingInkKept(u: string)
    requires u == [] || !IsSpace(u[0])
    ensures TrimStart(CollapseSpaces(u)) == CollapseSpaces(u)
  {
    if u != [] {
      assert CollapseSpaces(u) == [u[0]] + CollapseSpaces(u[1..]);
    }
  }

  /** Stripping the end of joined words takes off the trailing space and
      nothing else. */
  lemma TrimEndJoin(ws: seq<string>, trail: string)
    requires AllWords(ws)
    requires trail == "" || trail == " "
    ensures TrimEnd(JoinWords(ws) + trail) == JoinWords(ws)
  {
    JoinWordsEnds(ws);
    var j := JoinWords(ws);
    if trail == " " {
      assert (j + trail)[..|j|] == j;
    } else {
      assert j + trail == j;
    }
  }

  /** The normaliser is `" ".join(t.split())` of the scrubbed text t: the
      words survive, in order, separated by single spaces. */
  lemma CleanTextJoinsWords(s: string)
    ensures CleanText(s) == JoinWords(Words(Scrub(s)))
  {
    if s != "" {
      var t := Scrub(s);
      CollapseTrimmed(t);
      WordsAreWords(t);
      TrimEndJoin(Words(t), if Words(t) == [] then "" else Trail(t));
    }
  }

  // ---------------------------------------------------------------------
  // Text that is already clean
  // ---------------------------------------------------------------------

  /** Text the normaliser leaves as it is: non-empty, no opening bracket,
      no stray mark, single plain spaces, no whitespace at either end. */
  predicate IsTidy(s: string) {
    s != [] && !IsSpace(s[0]) && !IsSpace(s[|s| - 1])
    && (forall i :: 0 <= i < |s| ==> s[i] != '[')
    && NoStrayMarks(s) && NoDoubleSpace(s) && OnlyPlainSpaces(s)
  }

  /** Every character of t is whitespace. */
  predicate AllSpace(t: string) {
    forall i :: 0 <= i < |t| ==> IsSpace(t[i])
  }

  /** Collapsing text with single plain spaces followed by a whitespace run
      keeps the text and turns the run into one space. */
  lemma {:induction false} CollapseTidy(s: string, t: string)
    requires s != [] && !IsSpace(s[|s| - 1]) && NoDoubleSpace(s) && OnlyPlainSpaces(s)
    requires AllSpace(t)
    ensures CollapseSpaces(s + t) == s + (if t == [] then "" else " ")
    decreases |s|
  {
    var st := s + t;
    var rest := s[1..];
    assert st[1..] == rest + t;
    if rest == [] {
      CollapseAllSpace(t);
    } else {
      TidySuffix(s);
      CollapseTidy(rest, t);
      if IsSpace(s[0]) {
        assert !IsSpace(st[1]);
        assert SpaceRun(st) == 1;
      }
    }
  }

  /** A whitespace run collapses to one space, and nothing to nothing. */
  lemma CollapseAllSpace(t: string)
    requires AllSpace(t)
    ensures CollapseSpaces(t) == (if t == [] then "" else " ")
  {
    if t != [] {
      assert SpaceRun(t) == |t| by {
        SpaceRunOfSpaces(t);
      }
      assert t[|t|..] == [];
    }
  }

  /** The whitespace run of all-whitespace text is the whole text. */
  lemma {:induction false} SpaceRunOfSpaces(t: string)
    requires AllSpace(t)
    ensures SpaceRun(t) == |t|
    decreases |t|
  {
    if t != [] {
      assert AllSpace(t[1..]) by {
        assert forall i :: 0 <= i < |t[1..]| ==> t[1..][i] == t[i + 1];
      }
      SpaceRunOfSpaces(t[1..]);
    }
  }

  /** Dropping the first character of text with single plain spaces keeps
      single plain spaces and the last character. */
  lemma TidySuffix(s: string)
    requires |s| > 1 && NoDoubleSpace(s) && OnlyPlainSpaces(s)
    ensures NoDoubleSpace(s[1..]) && OnlyPlainSpaces(s[1..]) && s[1..][|s| - 2] == s[|s| - 1]
  {
    assert forall i :: 0 <= i < |s[1..]| ==> s[1..][i] == s[i + 1];
  }

  /** Tidy text, with or without trailing whitespace, comes out of the
      normaliser as the tidy text itself. */
  lemma CleanTextKeepsTidy(s: string, t: string)
    requires IsTidy(s) && AllSpace(t)
    ensures CleanText(s + t) == s
  {
    var st := s + t;
    assert forall i :: 0 <= i < |st| ==> st[i] != '[' by {
      forall i | 0 <= i < |st| ensures st[i] != '[' {
        if i >= |s| {
          assert st[i] == t[i - |s|];
        }
      }
    }
    RemoveMarkersKeepsPlainText(st);
    RemoveStrayMarksClean(st);
    assert NoStrayMarks(st) by {
      forall i | 0 <= i < |st| ensures !IsStrayMark(st[i]) {
        if i >= |s| {
          assert st[i] == t[i - |s|];
        }
      }
    }
    assert Scrub(st) == st;
    CollapseTidy(s, t);
    var c := s + (if t == [] then "" else " ");
    assert c[0] == s[0];
    assert TrimStart(c) == c;
    if t != [] {
      assert c[..|c| - 1] == s;
    }
    assert TrimEnd(c) == s;
  }
}
