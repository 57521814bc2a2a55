/**
 * The video-title cleaner of the video parser script (`filterTitle` in
 * scripts/video-parser/src/index.ts): drop the all-capitals words, move the episode marker
 * `odc. N` to the end in parentheses, and strip double quotes.
 */
module VideoTitle {
  import opened Wrappers
  import opened Unicode
  import opened JsString

  // ---------------------------------------------------------------------------------------
  // Step 1: the word filter
  // ---------------------------------------------------------------------------------------

  /** `/^\d+$/`: one or more ASCII digits and nothing else. */
  predicate AllDigits(w: string) {
    |w| > 0 && forall i :: 0 <= i < |w| ==> IsAsciiDigit(w[i])
  }

  /** A word survives when upper-casing changes it or when it is a number. */
  predicate KeepWord(w: string, upper: string -> string) {
    w != upper(w) || AllDigits(w)
  }

  /** `words.filter(KeepWord)`. */
  function KeepWords(ws: seq<string>, upper: string -> string): (r: seq<string>)
    ensures |r| <= |ws|
    ensures forall i :: 0 <= i < |r| ==> KeepWord(r[i], upper)
    ensures forall w :: w in r <==> w in ws && KeepWord(w, upper)
  {
    if |ws| == 0 then []
    else
      var init, w := ws[..|ws| - 1], ws[|ws| - 1];
      assert ws == init + [w];
      KeepWords(init, upper) + (if KeepWord(w, upper) then [w] else [])
  }

  /** The filter keeps the surviving words in their original relative order. */
  lemma {:induction false} KeepWordsAppend(a: seq<string>, b: seq<string>, upper: string -> string)
    ensures KeepWords(a + b, upper) == KeepWords(a, upper) + KeepWords(b, upper)
    decreases |b|
  {
    if |b| == 0 {
      assert a + b == a;
    } else {
      var init, w := b[..|b| - 1], b[|b| - 1];
      assert a + b == (a + init) + [w];
      assert b == init + [w];
      KeepWordsAppend(a, init, upper);
    }
  }

  /** The text after the word filter: the surviving words joined by single spaces. */
  function KeptText(title: string, upper: string -> string): string {
    Join(KeepWords(Split(title, ' '), upper), ' ')
  }

  // ---------------------------------------------------------------------------------------
  // Step 2: the episode marker /odc\.\s*\d+/i
  // ---------------------------------------------------------------------------------------

  /** Length of the longest run of ASCII digits starting at `from` (greedy `\d+`). */
  function DigitRun(s: string, from: nat): (n: nat)
    requires from <= |s|
    ensures from + n <= |s|
    ensures forall j :: from <= j < from + n ==> IsAsciiDigit(s[j])
    ensures from + n == |s| || !IsAsciiDigit(s[from + n])
    decreases |s| - from
  {
    if from == |s| || !IsAsciiDigit(s[from]) then 0 else 1 + DigitRun(s, from + 1)
  }

  /** `odc.` in any letter case at `k`; the `i` flag folds only the ASCII letters here. */
  predicate MarkerHead(s: string, k: int) {
    0 <= k && k + 4 <= |s|
    && (s[k] == 'o' || s[k] == 'O') && (s[k + 1] == 'd' || s[k + 1] == 'D')
    && (s[k + 2] == 'c' || s[k + 2] == 'C') && s[k + 3] == '.'
  }

  /**
   * The pattern matches `s[k..k + n]` with the `\s*` part `w` long: the reading of the
   * regular expression with no greediness in it.
   */
  predicate MatchShape(s: string, k: int, n: int, w: int) {
    MarkerHead(s, k) && 0 <= w && k + 4 + w < k + n <= |s|
    && (forall j :: k + 4 <= j < k + 4 + w ==> IsWhite(s[j]))
    && (forall j :: k + 4 + w <= j < k + n ==> IsAsciiDigit(s[j]))
  }

  /** The greedy matcher succeeds at `k`. */
  predicate MarkerAt(s: string, k: int) {
    MarkerHead(s, k) && DigitRun(s, k + 4 + WhiteRun(s, k + 4)) > 0
  }

  /** The length of the greedy match at `k`. */
  function MarkerLength(s: string, k: int): (n: nat)
    requires MarkerAt(s, k)
    ensures MatchShape(s, k, n, WhiteRun(s, k + 4))
  {
    4 + WhiteRun(s, k + 4) + DigitRun(s, k + 4 + WhiteRun(s, k + 4))
  }

  /**
   * The greedy matcher agrees with the pattern: it succeeds at `k` exactly when some text
   * at `k` matches, and its match is the longest one there.
   */
  lemma MarkerAtIff(s: string, k: int)
    ensures MarkerAt(s, k) <==> exists n, w :: MatchShape(s, k, n, w)
    ensures MarkerAt(s, k) ==> forall n, w :: MatchShape(s, k, n, w) ==> n <= MarkerLength(s, k)
  {
    forall n, w | MatchShape(s, k, n, w)
      ensures MarkerAt(s, k) && n <= MarkerLength(s, k)
    {
      var wr := WhiteRun(s, k + 4);
      assert IsAsciiDigit(s[k + 4 + w]);
      PrintableNotWhite(s[k + 4 + w]);
      assert w == wr;
    }
    if MarkerAt(s, k) {
      assert MatchShape(s, k, MarkerLength(s, k), WhiteRun(s, k + 4));
    }
  }

  /** `s.match(/odc\.\s*\d+/i)`: the leftmost position where the pattern matches. */
  function FindMarker(s: string): (r: Option<nat>)
    ensures r.Some? ==> MarkerAt(s, r.value) && forall j :: 0 <= j < r.value ==> !MarkerAt(s, j)
    ensures r.None? ==> forall j :: !MarkerAt(s, j)
  {
    var p := (k: nat) => MarkerAt(s, k);
    var r := FirstFrom(0, |s|, p);
    assert forall j :: 0 <= j <= |s| ==> p(j) == MarkerAt(s, j);
    r
  }

  /** The matched text. */
  function MarkerText(s: string, k: nat): (m: string)
    requires MarkerAt(s, k)
    ensures |m| >= 5 && k + |m| <= |s| && m == s[k..k + |m|]
  {
    s[k..k + MarkerLength(s, k)]
  }

  /**
   * The matched text first occurs where it was matched, so `replace(match, '')` removes
   * exactly that match: an earlier copy of the text would be an earlier match.
   */
  lemma MarkerFirstOccurrence(s: string, k: nat)
    requires MarkerAt(s, k) && forall j :: 0 <= j < k ==> !MarkerAt(s, j)
    ensures IndexOf(s, MarkerText(s, k)) == Some(k)
  {
    var m := MarkerText(s, k);
    var n, w := |m|, WhiteRun(s, k + 4);
    assert MatchShape(s, k, n, w);
    assert OccursAt(s, m, k);
    forall j | 0 <= j < k && OccursAt(s, m, j)
      ensures false
    {
      assert s[j..j + n] == m;
      forall i | j <= i < j + n ensures s[i] == s[k + (i - j)] {
        assert s[i] == s[j..j + n][i - j] && s[k + (i - j)] == m[i - j];
      }
      assert MarkerHead(s, j) by {
        assert s[j] == s[k] && s[j + 1] == s[k + 1] && s[j + 2] == s[k + 2] && s[j + 3] == s[k + 3];
      }
      assert MatchShape(s, j, n, w) by {
        forall i | j + 4 <= i < j + 4 + w ensures IsWhite(s[i]) {
          assert s[i] == s[k + (i - j)];
        }
        forall i | j + 4 + w <= i < j + n ensures IsAsciiDigit(s[i]) {
          assert s[i] == s[k + (i - j)];
        }
      }
      MarkerAtIff(s, j);
    }
  }

  /** `match.replace(/odc\.\s*\/, 'odc. ')`: case-sensitive, so only a lower-case `odc.` is respaced. */
  function NormalizeMarker(m: string): string
  {
    match IndexOf(m, "odc.")
    case None => m
    case Some(k) => m[..k] + "odc. " + m[k + 4 + WhiteRun(m, k + 4)..]
  }

  /** The digits of a match, after its marker and white space. */
  function MarkerDigits(s: string, k: nat): (d: string)
    requires MarkerAt(s, k)
    ensures |d| > 0 && AllDigits(d)
  {
    var w := WhiteRun(s, k + 4);
    s[k + 4 + w..k + 4 + w + DigitRun(s, k + 4 + w)]
  }

  /** Past its first character, a match text holds no `o`, so no `odc.` starts there. */
  lemma NoLaterLowerMarker(s: string, k: nat, i: int)
    requires MarkerAt(s, k) && 1 <= i
    ensures !OccursAt(MarkerText(s, k), "odc.", i)
  {
    var m := MarkerText(s, k);
    assert MatchShape(s, k, |m|, WhiteRun(s, k + 4));
    if i + 4 <= |m| {
      assert m[i] == s[k + i];
      assert m[i..i + 4][0] == m[i];
      PrintableNotWhite('o');
      assert m[i] != 'o';
    }
  }

  /** The white run inside a match text is the run of the source text at the same place. */
  lemma {:induction false} WhiteRunFrom(m: string, from: nat, w: nat)
    requires from + w < |m|
    requires forall j :: from <= j < from + w ==> IsWhite(m[j])
    requires IsAsciiDigit(m[from + w])
    ensures WhiteRun(m, from) == w
    decreases w
  {
    PrintableNotWhite(m[from + w]);
    if w > 0 {
      WhiteRunFrom(m, from + 1, w - 1);
    }
  }

  /** Within a match text, `odc.` occurs at the start when spelled in lower case, and nowhere else. */
  lemma LowerMarkerIndex(s: string, k: nat)
    requires MarkerAt(s, k)
    ensures var m := MarkerText(s, k);
      IndexOf(m, "odc.") == if "odc." <= m then Some(0) else None
  {
    var m := MarkerText(s, k);
    forall i | 1 <= i ensures !OccursAt(m, "odc.", i) {
      NoLaterLowerMarker(s, k, i);
    }
    if "odc." <= m {
      assert m[..4] == "odc.";
      assert OccursAt(m, "odc.", 0);
    } else {
      assert m[..4] != "odc.";
      assert m[0..4] == m[..4];
    }
  }

  /** The white run of a match text after its head is the source's run, and digits follow it. */
  lemma MarkerParts(s: string, k: nat)
    requires MarkerAt(s, k)
    ensures var m := MarkerText(s, k); var w := WhiteRun(s, k + 4);
      4 + w <= |m| && WhiteRun(m, 4) == w && m[4 + w..] == MarkerDigits(s, k)
  {
    var w := WhiteRun(s, k + 4);
    var n := 4 + w + DigitRun(s, k + 4 + w);
    var m := MarkerText(s, k);
    assert m == s[k..k + n];
    forall j | 4 <= j < 4 + w ensures IsWhite(m[j]) {
      assert m[j] == s[k + j];
    }
    assert m[4 + w] == s[k + 4 + w];
    WhiteRunFrom(m, 4, w);
    var d := MarkerDigits(s, k);
    assert d == s[k + 4 + w..k + n];
    forall j | 0 <= j < |d| ensures m[4 + w + j] == d[j] {
      assert d[j] == s[k + 4 + w + j];
    }
    assert m[4 + w..] == d;
  }

  /**
   * On a matched marker, a lower-case `odc.` becomes `odc. ` followed by the digits, and any
   * other spelling (`Odc.`, `ODC.`) is left exactly as matched.
   */
  lemma NormalizeMatchedMarker(s: string, k: nat)
    requires MarkerAt(s, k)
    ensures var m := MarkerText(s, k);
      NormalizeMarker(m) == if "odc." <= m then "odc. " + MarkerDigits(s, k) else m
  {
    LowerMarkerIndex(s, k);
    MarkerParts(s, k);
  }

  /** A match text consists of the marker letters, white space and digits: never a quote. */
  lemma MarkerHasNoQuote(s: string, k: nat)
    requires MarkerAt(s, k)
    ensures '"' !in MarkerText(s, k) && '"' !in NormalizeMarker(MarkerText(s, k))
  {
    var m := MarkerText(s, k);
    assert MatchShape(s, k, |m|, WhiteRun(s, k + 4));
    forall i | 0 <= i < |m| ensures m[i] != '"' {
      assert m[i] == s[k + i];
      PrintableNotWhite('"');
    }
    NormalizeMatchedMarker(s, k);
    var d := MarkerDigits(s, k);
    assert forall i :: 0 <= i < |d| ==> d[i] != '"';
  }

  /**
   * Step 2: remove the first copy of the marker's text, trim, and append the normalized
   * marker in parentheses; without a marker the text is left alone.
   */
  function RelocateMarker(s: string): string {
    match FindMarker(s)
    case None => s
    case Some(k) =>
      var m := MarkerText(s, k);
      Trim(ReplaceFirst(s, m, "")) + " " + Parenthesized(NormalizeMarker(m))
  }

  /** `(${x})`. */
  function Parenthesized(x: string): (r: string)
    ensures |r| == |x| + 2 && r[0] == '(' && r[|r| - 1] == ')'
  {
    "(" + x + ")"
  }

  lemma ParenthesizedChars(x: string, c: char)
    ensures c in Parenthesized(x) <==> c == '(' || c == ')' || c in x
  {
    assert Parenthesized(x) == ['('] + x + [')'];
  }

  // ---------------------------------------------------------------------------------------
  // Step 3 and the whole cleaner
  // ---------------------------------------------------------------------------------------

  /** `filterTitle`: the cleaned title has no double quote and no white margin. */
  function FilterTitle(title: string, ops: TextOps): (r: string)
    ensures '"' !in r
    ensures Trimmed(r)
  {
    var t := RemoveChar(RelocateMarker(KeptText(title, ops.upper)), '"');
    TrimChars(t);
    Trim(t)
  }

  /** Replacing the first copy of the match text cuts out exactly the leftmost match. */
  lemma MarkerCut(s: string, k: nat)
    requires FindMarker(s) == Some(k)
    ensures var m := MarkerText(s, k); ReplaceFirst(s, m, "") == s[..k] + s[k + |m|..]
  {
    var m := MarkerText(s, k);
    MarkerFirstOccurrence(s, k);
    assert ReplaceFirst(s, m, "") == s[..k] + "" + s[k + |m|..];
    assert s[..k] + "" == s[..k];
  }

  /** Unquoting and trimming keep a quote-free parenthesized block at the end. */
  lemma UnquoteKeepsTail(head: string, tail: string)
    requires '"' !in tail && |tail| >= 2 && tail[0] == '(' && tail[|tail| - 1] == ')'
    ensures EndsWith(Trim(RemoveChar((head + " ") + tail, '"')), tail)
  {
    RemoveCharAppend(head + " ", tail, '"');
    RemoveCharAbsent(tail, '"');
    PrintableNotWhite('(');
    PrintableNotWhite(')');
    TrimKeepsSuffix(RemoveChar(head + " ", '"'), tail);
  }

  /** After step 2 and the quote removal, the text still ends with the parenthesized marker. */
  lemma RelocatedTail(s: string, k: nat)
    requires FindMarker(s) == Some(k)
    ensures EndsWith(Trim(RemoveChar(RelocateMarker(s), '"')), Parenthesized(NormalizeMarker(MarkerText(s, k))))
  {
    var m := MarkerText(s, k);
    MarkerHasNoQuote(s, k);
    var head := Trim(ReplaceFirst(s, m, ""));
    var n := NormalizeMarker(m);
    var tail := Parenthesized(n);
    assert '"' !in tail by {
      ParenthesizedChars(n, '"');
    }
    assert RelocateMarker(s) == (head + " ") + tail;
    UnquoteKeepsTail(head, tail);
    assert Trim(RemoveChar(RelocateMarker(s), '"')) == Trim(RemoveChar((head + " ") + tail, '"'));
  }

  /** The three steps of the cleaner, stated over their intermediate texts. */
  lemma FilterTitleSteps(title: string, ops: TextOps, kept: string, relocated: string)
    requires kept == KeptText(title, ops.upper) && relocated == RelocateMarker(kept)
    ensures FilterTitle(title, ops) == Trim(RemoveChar(relocated, '"'))
  {
  }

  /** Quote-free text with no white margin comes out of step 3 as it went in. */
  lemma UnquoteTrimmed(s: string)
    requires '"' !in s && Trimmed(s)
    ensures Trim(RemoveChar(s, '"')) == s
  {
    RemoveCharAbsent(s, '"');
    TrimTrimmed(s);
  }

  /** Step 3 drops the space before a quote-free, parenthesized block that is all that is left. */
  lemma UnquoteAfterSpace(x: string)
    requires '"' !in x
    ensures Trim(RemoveChar(" " + Parenthesized(x), '"')) == Parenthesized(x)
  {
    var p := Parenthesized(x);
    ParenthesizedChars(x, '"');
    assert '"' !in " " + p;
    RemoveCharAbsent(" " + p, '"');
    SpaceIsWhite();
    PrintableNotWhite('(');
    PrintableNotWhite(')');
    TrimAfterWhite(' ', p);
  }

  /**
   * With an episode marker at `k` in the filtered text `s` (leftmost), the match is cut out
   * where it was found and the cleaned title ends with that marker, normalized, in
   * parentheses.
   */
  lemma MarkerMovedToEnd(title: string, ops: TextOps, s: string, k: nat)
    requires s == KeptText(title, ops.upper) && FindMarker(s) == Some(k)
    ensures var m := MarkerText(s, k);
      ReplaceFirst(s, m, "") == s[..k] + s[k + |m|..]
    ensures EndsWith(FilterTitle(title, ops), Parenthesized(NormalizeMarker(MarkerText(s, k))))
  {
    var relocated := RelocateMarker(s);
    FilterTitleSteps(title, ops, s, relocated);
    MarkerCut(s, k);
    RelocatedTail(s, k);
    assert FilterTitle(title, ops) == Trim(RemoveChar(relocated, '"'));
  }

  /** Without a marker the cleaned title is the filtered words, unquoted and trimmed. */
  lemma NoMarkerKeepsWords(title: string, ops: TextOps)
    requires FindMarker(KeptText(title, ops.upper)).None?
    ensures FilterTitle(title, ops) == Trim(RemoveChar(Join(KeepWords(Split(title, ' '), ops.upper), ' '), '"'))
  {
  }

  // ---------------------------------------------------------------------------------------
  // Worked instances, with ASCII-only case mapping
  // ---------------------------------------------------------------------------------------

  /** The word filter on a title made of the words `ws` joined by single spaces. */
  lemma KeptTextOfWords(ws: seq<string>, upper: string -> string)
    requires |ws| >= 1 && forall i :: 0 <= i < |ws| ==> ' ' !in ws[i]
    ensures KeptText(Join(ws, ' '), upper) == Join(KeepWords(ws, upper), ' ')
  {
    SplitJoin(ws, ' ');
  }

  /** Step 2 on a word followed by a marker that ends the text: the word stays in front. */
  lemma WordThenMarkerRelocated(w: string, mk: string)
    requires |w| > 0 && Trimmed(w)
    requires FindMarker(w + " " + mk) == Some(|w| + 1)
    requires |MarkerText(w + " " + mk, |w| + 1)| == |mk|
    requires NormalizeMarker(MarkerText(w + " " + mk, |w| + 1)) == mk
    ensures RelocateMarker(w + " " + mk) == w + " " + Parenthesized(mk)
  {
    var t := w + " " + mk;
    var k := |w| + 1;
    var m := MarkerText(t, k);
    MarkerCut(t, k);
    assert t[..k] == w + " ";
    assert t[k + |m|..] == [];
    var cut := ReplaceFirst(t, m, "");
    assert cut == w + " ";
    SpaceIsWhite();
    TrimBeforeWhite(w, ' ');
    assert Trim(cut) == w;
  }

  /**
   * A title made of one kept word and then a lower-case marker comes out as the word and
   * the marker in parentheses.
   */
  lemma WordThenMarker(w: string, mk: string, t: string, ops: TextOps)
    requires t == w + " " + mk
    requires |w| > 0 && Trimmed(w) && '"' !in w
    requires KeptText(t, ops.upper) == t
    requires FindMarker(t) == Some(|w| + 1)
    requires |MarkerText(t, |w| + 1)| == |mk|
    requires NormalizeMarker(MarkerText(t, |w| + 1)) == mk
    ensures FilterTitle(t, ops) == w + " " + Parenthesized(mk)
  {
    var p := Parenthesized(mk);
    var relocated := w + " " + p;
    WordThenMarkerRelocated(w, mk);
    MarkerHasNoQuote(t, |w| + 1);
    ParenthesizedChars(mk, '"');
    assert '"' !in relocated;
    PrintableNotWhite(')');
    assert relocated[0] == w[0] && relocated[|relocated| - 1] == p[|p| - 1];
    UnquoteTrimmed(relocated);
    FilterTitleSteps(t, ops, t, relocated);
  }

  /** The word filter on one word. */
  lemma KeepOneWord(w: string, upper: string -> string)
    ensures KeepWords([w], upper) == if KeepWord(w, upper) then [w] else []
  {
    assert [w][..0] == [];
  }

  lemma JoinTwo(a: string, b: string)
    ensures Join([a, b], ' ') == a + " " + b
  {
    assert [a, b][1..] == [b];
  }

  lemma JoinThree(a: string, b: string, c: string)
    ensures Join([a, b, c], ' ') == a + " " + b + " " + c
  {
    var ws := [a, b, c];
    assert ws[1..] == [b, c];
    JoinTwo(b, c);
    assert Join(ws, ' ') == a + " " + (b + " " + c);
  }

  /** The word filter on a three-word title, one word at a time. */
  lemma ThreeWordTitle(a: string, b: string, c: string, upper: string -> string)
    requires ' ' !in a && ' ' !in b && ' ' !in c
    ensures KeptText(a + " " + b + " " + c, upper) == Join(
      (if KeepWord(a, upper) then [a] else []) + (if KeepWord(b, upper) then [b] else [])
      + (if KeepWord(c, upper) then [c] else []), ' ')
  {
    var ws := [a, b, c];
    JoinThree(a, b, c);
    KeptTextOfWords(ws, upper);
    assert ws == [a] + [b] + [c];
    KeepWordsAppend([a] + [b], [c], upper);
    KeepWordsAppend([a], [b], upper);
    KeepOneWord(a, upper);
    KeepOneWord(b, upper);
    KeepOneWord(c, upper);
  }

  /** All three words of `a odc. 1` survive the word filter. */
  lemma MarkedTitleWords()
    ensures KeptText("a odc. 1", AsciiUpper) == "a odc. 1"
  {
    var a, b, c := "a", "odc.", "1";
    assert AsciiUpper(a)[0] == 'A';
    assert AsciiUpper(b)[0] == 'O';
    assert AllDigits(c);
    ThreeWordTitle(a, b, c, AsciiUpper);
    assert [a] + [b] + [c] == [a, b, c];
    JoinThree(a, b, c);
    MarkedTitleText();
  }

  /** A match with no marker head before it is the leftmost one. */
  lemma FirstMarkerAt(s: string, k: nat)
    requires MarkerAt(s, k) && forall j :: 0 <= j < k ==> !MarkerHead(s, j)
    ensures FindMarker(s) == Some(k)
  {
  }

  lemma MarkedTitleAt()
    ensures MarkerAt("a odc. 1", 2) && MarkerLength("a odc. 1", 2) == 6
  {
    var t := "a odc. 1";
    SpaceIsWhite();
    PrintableNotWhite('1');
    assert WhiteRun(t, 6) == 1 && DigitRun(t, 7) == 1;
  }

  lemma MarkedTitleSlices()
    ensures "a odc. 1"[2..8] == "odc. 1"
    ensures "odc." <= "odc. 1"
    ensures "a odc. 1"[7..8] == "1"
    ensures "odc. " + "1" == "odc. 1"
  {
  }

  /** In `a odc. 1` the leftmost match starts at the second word and is a lower-case one. */
  lemma MarkedTitleMatch()
    ensures FindMarker("a odc. 1") == Some(2)
    ensures |MarkerText("a odc. 1", 2)| == 6
    ensures NormalizeMarker(MarkerText("a odc. 1", 2)) == "odc. 1"
  {
    var t := "a odc. 1";
    MarkedTitleAt();
    assert !MarkerHead(t, 0) && !MarkerHead(t, 1);
    FirstMarkerAt(t, 2);
    MarkedTitleSlices();
    var m := MarkerText(t, 2);
    assert m == "odc. 1";
    NormalizeMatchedMarker(t, 2);
    assert MarkerDigits(t, 2) == "1";
  }

  lemma MarkedTitleText()
    ensures "a" + " " + "odc." + " " + "1" == "a odc. 1"
    ensures "a" + " " + "odc. 1" == "a odc. 1"
    ensures "a" + " " + Parenthesized("odc. 1") == "a (odc. 1)"
  {
  }

  /** The marker is moved behind the word and put in parentheses. */
  lemma MarkedTitle()
    ensures FilterTitle("a odc. 1", AsciiOps) == "a (odc. 1)"
  {
    MarkedTitleWords();
    MarkedTitleMatch();
    MarkedTitleText();
    PrintableNotWhite('a');
    MarkedTitleFrom("a", "odc. 1", "a odc. 1", AsciiOps);
  }

  /** The example with the facts about its parts as premises, so the literal title is not unfolded. */
  lemma MarkedTitleFrom(w: string, mk: string, t: string, ops: TextOps)
    requires w == "a" && mk == "odc. 1" && t == w + " " + mk && ops.upper == AsciiUpper
    requires Trimmed(w) && KeptText(t, AsciiUpper) == t
    requires FindMarker(t) == Some(2) && |MarkerText(t, 2)| == 6 && NormalizeMarker(MarkerText(t, 2)) == mk
    ensures FilterTitle(t, ops) == w + " " + Parenthesized(mk)
  {
    WordThenMarker(w, mk, t, ops);
  }

  lemma CleanedTitleText()
    ensures "a" + " " + "(odc." + " " + "1)" == "a (odc. 1)"
    ensures "a" + " " + "(odc." == "a (odc."
  {
  }

  /** Of `a (odc. 1)` the last word is dropped: `1)` has no case and is not a number. */
  lemma CleanedTitleWords()
    ensures KeptText("a (odc. 1)", AsciiUpper) == "a (odc."
  {
    var a, b, c := "a", "(odc.", "1)";
    assert AsciiUpper(a)[0] == 'A';
    assert AsciiUpper(b)[1] == 'O';
    assert AsciiUpper(c) == c;
    assert !IsAsciiDigit(c[1]);
    ThreeWordTitle(a, b, c, AsciiUpper);
    assert [a] + [b] + [] == [a, b];
    JoinTwo(a, b);
    CleanedTitleText();
  }

  /** `a (odc.` has no match: no digit follows the marker. */
  lemma CleanedTitleNoMatch()
    ensures FindMarker("a (odc.").None?
  {
    var s := "a (odc.";
    assert WhiteRun(s, 7) == 0 && DigitRun(s, 7) == 0;
    forall j ensures !MarkerAt(s, j) {
      if MarkerHead(s, j) {
        assert j == 3;
      }
    }
  }

  /** The parenthesized marker does not survive a second cleaning. */
  lemma CleanedTitle()
    ensures FilterTitle("a (odc. 1)", AsciiOps) == "a (odc."
  {
    var s := "a (odc.";
    PrintableNotWhite('a');
    PrintableNotWhite('.');
    UnquoteTrimmed(s);
    CleanedTitleWords();
    CleanedTitleNoMatch();
    assert RelocateMarker(s) == s;
    FilterTitleSteps("a (odc. 1)", AsciiOps, s, s);
  }

  /**
   * Cleaning is not idempotent: a cleaned title that ends with its episode marker loses the
   * marker's number when cleaned again.
   */
  lemma FilterTitleNotIdempotent()
    ensures FilterTitle(FilterTitle("a odc. 1", AsciiOps), AsciiOps) != FilterTitle("a odc. 1", AsciiOps)
  {
    MarkedTitle();
    CleanedTitle();
  }
}
