/**
 * URL slugs for countries and places (src/lib/slug.ts): the text is lower-cased and
 * decomposed, combining marks are dropped, every run of characters outside `[a-z0-9]`
 * becomes one hyphen, and a hyphen is cut off either end.
 */
module Slug {
  import opened Unicode

  /** `[a-z0-9]`. */
  predicate IsSlugAlnum(c: char) { IsAsciiLower(c) || IsAsciiDigit(c) }

  /** The Combining Diacritical Marks block, `[\u0300-\u036f]`. */
  predicate IsCombining(c: char) { '\U{0300}' <= c <= '\U{036F}' }

  /** `[a-z0-9-]`. */
  predicate SlugChar(c: char) { IsSlugAlnum(c) || c == '-' }

  predicate SlugChars(s: string) {
    forall i :: 0 <= i < |s| ==> SlugChar(s[i])
  }

  /** `s` never holds `--`. */
  ghost predicate NoDoubleHyphen(s: string) {
    forall i, j | 0 <= i && j == i + 1 && j < |s| :: !(s[i] == '-' && s[j] == '-')
  }

  lemma NoDoubleHyphenTail(s: string)
    requires NoDoubleHyphen(s) && |s| > 0
    ensures NoDoubleHyphen(s[1..])
  {
    var t := s[1..];
    forall i, j | 0 <= i && j == i + 1 && j < |t|
      ensures !(t[i] == '-' && t[j] == '-')
    {
      assert t[i] == s[i + 1] && t[j] == s[j + 1];
    }
  }

  /** A well-formed slug: `[a-z0-9-]` only, no `--`, no hyphen at either end. */
  ghost predicate IsSlug(s: string) {
    SlugChars(s) && NoDoubleHyphen(s) && (|s| > 0 ==> s[0] != '-' && s[|s| - 1] != '-')
  }

  /** The `[a-z0-9]` characters of `s`, in order: what a slug keeps of its input. */
  function AlnumOf(s: string): (r: string)
    ensures |r| <= |s|
    ensures forall i :: 0 <= i < |r| ==> IsSlugAlnum(r[i])
  {
    if |s| == 0 then ""
    else if IsSlugAlnum(s[0]) then [s[0]] + AlnumOf(s[1..])
    else AlnumOf(s[1..])
  }

  lemma {:induction false} AlnumOfAppend(a: string, b: string)
    ensures AlnumOf(a + b) == AlnumOf(a) + AlnumOf(b)
    decreases |a|
  {
    if |a| == 0 {
      assert a + b == b;
    } else {
      assert (a + b)[0] == a[0];
      assert (a + b)[1..] == a[1..] + b;
      AlnumOfAppend(a[1..], b);
    }
  }

  /** A string made only of `[a-z0-9]` is its own alphanumeric part. */
  lemma {:induction false} AlnumOfAlnum(s: string)
    requires forall i :: 0 <= i < |s| ==> IsSlugAlnum(s[i])
    ensures AlnumOf(s) == s
    decreases |s|
  {
    if |s| > 0 {
      AlnumOfAlnum(s[1..]);
      assert s == [s[0]] + s[1..];
    }
  }

  /** `.replace(/[\u0300-\u036f]+/g, '')`: every combining mark removed, the rest kept in order. */
  function RemoveCombining(s: string): (r: string)
    ensures forall c :: c in r <==> c in s && !IsCombining(c)
    ensures AlnumOf(r) == AlnumOf(s)
    ensures (forall i :: 0 <= i < |s| ==> !IsCombining(s[i])) ==> r == s
  {
    if |s| == 0 then ""
    else if IsCombining(s[0]) then RemoveCombining(s[1..])
    else
      var t := RemoveCombining(s[1..]);
      assert ([s[0]] + t)[1..] == t;
      assert s == [s[0]] + s[1..];
      [s[0]] + t
  }

  /**
   * `.replace(/[^a-z0-9]+/g, '-')` on `s`, where `inRun` says that the character before `s`
   * already belonged to a replaced run: the first character of a run becomes `-`, the rest of
   * the run is dropped.
   */
  function CollapseFrom(s: string, inRun: bool): (r: string)
    ensures SlugChars(r)
    ensures NoDoubleHyphen(r)
    ensures inRun && |r| > 0 ==> r[0] != '-'
    ensures AlnumOf(r) == AlnumOf(s)
  {
    if |s| == 0 then ""
    else if IsSlugAlnum(s[0]) then
      var t := CollapseFrom(s[1..], false);
      assert ([s[0]] + t)[1..] == t;
      [s[0]] + t
    else if inRun then CollapseFrom(s[1..], true)
    else
      var t := CollapseFrom(s[1..], true);
      assert ("-" + t)[1..] == t;
      "-" + t
  }

  function Collapse(s: string): (r: string)
    ensures SlugChars(r) && NoDoubleHyphen(r)
    ensures AlnumOf(r) == AlnumOf(s)
  {
    CollapseFrom(s, false)
  }

  /**
   * `.replace(/(^-|-$)+/g, '')`: a leading hyphen, then a trailing hyphen, removed. On the
   * output of `Collapse` this is what the pattern does, since that output never holds `--`.
   */
  function DropEdgeHyphens(s: string): (r: string)
    ensures SlugChars(s) && NoDoubleHyphen(s) ==> IsSlug(r)
    ensures AlnumOf(r) == AlnumOf(s)
    ensures |s| > 0 && s[0] != '-' && s[|s| - 1] != '-' ==> r == s
  {
    var t := if |s| > 0 && s[0] == '-' then s[1..] else s;
    assert AlnumOf(t) == AlnumOf(s) by {
      if |s| > 0 && s[0] == '-' {
        assert s == [s[0]] + t;
      }
    }
    if |t| > 0 && t[|t| - 1] == '-' then
      AlnumOfAppend(t[..|t| - 1], [t[|t| - 1]]);
      assert t == t[..|t| - 1] + [t[|t| - 1]];
      t[..|t| - 1]
    else t
  }

  /** The text the slug is cut from: lower-cased, decomposed, combining marks removed. */
  function Folded(v: string, ops: TextOps): string {
    RemoveCombining(ops.nfd(ops.lower(v)))
  }

  /** `toSlug`. */
  function ToSlug(v: string, ops: TextOps): (r: string)
    ensures IsSlug(r)
    ensures AlnumOf(r) == AlnumOf(ops.nfd(ops.lower(v)))
  {
    DropEdgeHyphens(Collapse(Folded(v, ops)))
  }

  /** `countrySlug`: the same slug. */
  function CountrySlug(countryName: string, ops: TextOps): (r: string)
    ensures r == ToSlug(countryName, ops)
    ensures IsSlug(r)
  {
    ToSlug(countryName, ops)
  }

  /** `placeSlug`: the same slug. */
  function PlaceSlug(placeName: string, ops: TextOps): (r: string)
    ensures r == ToSlug(placeName, ops)
    ensures IsSlug(r)
  {
    ToSlug(placeName, ops)
  }

  /** A slug with no letter or digit is empty: its ends cannot be hyphens. */
  lemma SlugWithoutAlnum(s: string)
    requires IsSlug(s) && AlnumOf(s) == ""
    ensures s == ""
  {
  }

  /** The slug is empty exactly when the folded text has no `[a-z0-9]` character. */
  lemma ToSlugEmptyIff(v: string, ops: TextOps)
    ensures ToSlug(v, ops) == "" <==> AlnumOf(ops.nfd(ops.lower(v))) == ""
  {
    if AlnumOf(ops.nfd(ops.lower(v))) == "" {
      SlugWithoutAlnum(ToSlug(v, ops));
    }
  }

  /** Collapsing text that is already slug-shaped changes nothing. */
  lemma {:induction false} CollapseSlug(s: string, inRun: bool)
    requires SlugChars(s) && NoDoubleHyphen(s)
    requires inRun && |s| > 0 ==> s[0] != '-'
    ensures CollapseFrom(s, inRun) == s
    decreases |s|
  {
    if |s| > 0 {
      var t := s[1..];
      assert SlugChars(t);
      NoDoubleHyphenTail(s);
      if IsSlugAlnum(s[0]) {
        CollapseSlug(t, false);
      } else {
        assert |t| > 0 ==> t[0] == s[1];
        CollapseSlug(t, true);
      }
      assert s == [s[0]] + t;
    }
  }

  /** Text of `[a-z0-9]` only, at least one character: one word of a slug. */
  predicate IsWord(w: string) {
    |w| > 0 && forall i :: 0 <= i < |w| ==> IsSlugAlnum(w[i])
  }

  /** Text with no `[a-z0-9]` character: what one match of `[^a-z0-9]+` may cover. */
  predicate IsSeparator(sep: string) {
    forall i :: 0 <= i < |sep| ==> !IsSlugAlnum(sep[i])
  }

  /** What the first character of a non-empty text contributes to its collapse. */
  function RunHead(c: char, inRun: bool): string {
    if IsSlugAlnum(c) then [c] else if inRun then "" else "-"
  }

  /** One step of the collapse: the first character, then the rest with the run state it leaves. */
  lemma CollapseCons(s: string, inRun: bool)
    requires |s| > 0
    ensures CollapseFrom(s, inRun) == RunHead(s[0], inRun) + CollapseFrom(s[1..], !IsSlugAlnum(s[0]))
  {
  }

  /** The sequence identities for peeling the first character off `w + rest`. */
  lemma PeelFirst(w: string, rest: string, y: string)
    requires |w| > 0
    ensures (w + rest)[0] == w[0] && (w + rest)[1..] == w[1..] + rest
    ensures [w[0]] + (w[1..] + y) == w + y
  {
  }

  /** A word is kept as it is, and no run is open after it, whatever came before. */
  lemma {:induction false} CollapseWordThen(w: string, rest: string, inRun: bool)
    requires IsWord(w)
    ensures CollapseFrom(w + rest, inRun) == w + CollapseFrom(rest, false)
    decreases |w|
  {
    var y := CollapseFrom(rest, false);
    PeelFirst(w, rest, y);
    CollapseCons(w + rest, inRun);
    assert IsWord(w[1..]) || w[1..] == "";
    if |w| > 1 {
      CollapseWordThen(w[1..], rest, false);
    } else {
      assert w[1..] + rest == rest && w[1..] + y == y;
    }
  }

  /**
   * A whole run outside `[a-z0-9]` becomes a single hyphen, or nothing when a run was already
   * open before it; the text after the run collapses on its own.
   */
  lemma {:induction false} CollapseRun(sep: string, b: string, inRun: bool)
    requires IsSeparator(sep)
    requires |b| == 0 || IsSlugAlnum(b[0])
    ensures CollapseFrom(sep + b, inRun) ==
      (if |sep| > 0 && !inRun then "-" else "") + CollapseFrom(b, false)
    decreases |sep|
  {
    if |sep| == 0 {
      assert sep + b == b;
    } else {
      assert (sep + b)[0] == sep[0];
      assert (sep + b)[1..] == sep[1..] + b;
      CollapseRun(sep[1..], b, true);
    }
  }

  /** `w + sep + rest` collapses to `w`, one hyphen, and the collapse of `rest`. */
  lemma CollapseWordThenRun(w: string, sep: string, rest: string)
    requires IsWord(w) && |sep| > 0 && IsSeparator(sep)
    requires |rest| == 0 || IsSlugAlnum(rest[0])
    ensures Collapse(w + sep + rest) == w + "-" + Collapse(rest)
  {
    assert w + sep + rest == w + (sep + rest);
    CollapseWordThen(w, sep + rest, false);
    CollapseRun(sep, rest, false);
  }

  /** Two words around a separator run: `toSlug` joins them with exactly one hyphen. */
  lemma ToSlugTwoWords(v: string, ops: TextOps, w1: string, sep: string, w2: string)
    requires IsWord(w1) && IsWord(w2) && |sep| > 0 && IsSeparator(sep)
    requires Folded(v, ops) == w1 + sep + w2
    ensures ToSlug(v, ops) == w1 + "-" + w2
  {
    var c := w1 + "-" + w2;
    assert Collapse(Folded(v, ops)) == c by {
      CollapseWordThenRun(w1, sep, w2);
      assert w2 + "" == w2;
      CollapseWordThen(w2, "", false);
    }
    assert c[0] == w1[0] && c[|c| - 1] == w2[|w2| - 1];
  }

  /** The regrouping identities the edge lemmas need. */
  lemma Regroup(a: string, b: string, c: string)
    ensures a + b + c == a + (b + c)
    ensures c + "" == c
  {
  }

  /** Separator runs around one word: each becomes one hyphen, or nothing when it is empty. */
  lemma CollapseEdgeRuns(sep1: string, w: string, sep2: string)
    requires IsWord(w) && IsSeparator(sep1) && IsSeparator(sep2)
    ensures Collapse(sep1 + w + sep2) ==
      (if |sep1| > 0 then "-" else "") + w + (if |sep2| > 0 then "-" else "")
  {
    var pre := if |sep1| > 0 then "-" else "";
    var post := if |sep2| > 0 then "-" else "";
    Regroup(sep1, w, sep2);
    Regroup(pre, w, post);
    CollapseRun(sep1, w + sep2, false);
    CollapseWordThen(w, sep2, false);
    CollapseRun(sep2, "", false);
  }

  /** On a word with at most one hyphen at each end, the hyphens are cut off. */
  lemma DropEdgeHyphensAround(pre: string, w: string, post: string)
    requires IsWord(w) && (pre == "" || pre == "-") && (post == "" || post == "-")
    ensures DropEdgeHyphens(pre + w + post) == w
  {
  }

  /** A separator run at either end of the folded text leaves no trace in the slug. */
  lemma ToSlugEdgeRuns(v: string, ops: TextOps, sep1: string, w: string, sep2: string)
    requires IsWord(w) && IsSeparator(sep1) && IsSeparator(sep2)
    requires Folded(v, ops) == sep1 + w + sep2
    ensures ToSlug(v, ops) == w
  {
    CollapseEdgeRuns(sep1, w, sep2);
    DropEdgeHyphensAround(if |sep1| > 0 then "-" else "", w, if |sep2| > 0 then "-" else "");
  }

  /** The runtime tables leave slug text alone: case mapping and NFD fix `[a-z0-9-]`. */
  ghost predicate FixesSlugText(ops: TextOps) {
    forall t :: SlugChars(t) ==> ops.lower(t) == t && ops.nfd(t) == t
  }

  /** A slug whose text the runtime leaves alone is its own slug. */
  lemma SlugFixedPoint(t: string, ops: TextOps)
    requires IsSlug(t)
    requires ops.lower(t) == t && ops.nfd(t) == t
    ensures ToSlug(t, ops) == t
  {
    assert forall i :: 0 <= i < |t| ==> !IsCombining(t[i]) by {
      forall i | 0 <= i < |t| ensures !IsCombining(t[i]) {
        assert SlugChar(t[i]);
      }
    }
    assert Folded(t, ops) == t;
    CollapseSlug(t, false);
    assert Collapse(t) == t;
  }

  /** `toSlug(toSlug(s)) == toSlug(s)`. */
  lemma ToSlugIdempotent(v: string, ops: TextOps)
    requires FixesSlugText(ops)
    ensures ToSlug(ToSlug(v, ops), ops) == ToSlug(v, ops)
  {
    SlugFixedPoint(ToSlug(v, ops), ops);
  }

  /** Text made only of `[a-z0-9]` comes back unchanged. */
  lemma AlnumTextUnchanged(t: string, ops: TextOps)
    requires forall i :: 0 <= i < |t| ==> IsSlugAlnum(t[i])
    requires FixesSlugText(ops)
    ensures ToSlug(t, ops) == t
  {
    assert SlugChars(t);
    SlugFixedPoint(t, ops);
  }

  /** ASCII case mapping leaves slug text alone, so the ASCII runtime satisfies the premise. */
  lemma AsciiFixesSlugText()
    ensures FixesSlugText(AsciiOps)
  {
    forall t | SlugChars(t) ensures AsciiLower(t) == t {
      assert forall i :: 0 <= i < |t| ==> AsciiLower(t)[i] == t[i] by {
        forall i | 0 <= i < |t| ensures AsciiLower(t)[i] == t[i] {
          assert SlugChar(t[i]);
        }
      }
    }
  }

  lemma AsciiToSlugIdempotent(v: string)
    ensures ToSlug(ToSlug(v, AsciiOps), AsciiOps) == ToSlug(v, AsciiOps)
  {
    AsciiFixesSlugText();
    ToSlugIdempotent(v, AsciiOps);
  }
}
