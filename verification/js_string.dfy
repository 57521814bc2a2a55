/**
 * The ECMAScript string operations the code uses, on text modelled as `seq<char>` (one Dafny
 * `char` per Unicode scalar value, where ECMAScript counts UTF-16 code units):
 * `trim`, `includes`, `indexOf`, `split`/`join` on one separator character, `replace` with a
 * string pattern, and a global one-character `replace(/c/g, '')`.
 */
module JsString {
  import opened Wrappers

  /**
   * ECMAScript WhiteSpace and LineTerminator code points: what `trim()` strips and `\s`
   * matches. U+2000 to U+200A are listed one by one.
   */
  const WhiteTable: seq<char> := [
    ' ', '\t', '\n', '\U{B}', '\U{C}', '\r', '\U{A0}', '\U{1680}',
    '\U{2000}', '\U{2001}', '\U{2002}', '\U{2003}', '\U{2004}', '\U{2005}', '\U{2006}',
    '\U{2007}', '\U{2008}', '\U{2009}', '\U{200A}',
    '\U{2028}', '\U{2029}', '\U{202F}', '\U{205F}', '\U{3000}', '\U{FEFF}']

  /** `c` occurs in `WhiteTable` at position `i` or later, looked up one entry at a time. */
  predicate WhiteFrom(c: char, i: nat)
    decreases |WhiteTable| - i
  {
    i < |WhiteTable| && (WhiteTable[i] == c || WhiteFrom(c, i + 1))
  }

  predicate IsWhite(c: char) {
    WhiteFrom(c, 0)
  }

  lemma {:induction false} WhiteFromIn(c: char, i: nat)
    ensures WhiteFrom(c, i) <==> exists j :: i <= j < |WhiteTable| && WhiteTable[j] == c
    decreases |WhiteTable| - i
  {
    if i < |WhiteTable| {
      WhiteFromIn(c, i + 1);
      if WhiteFrom(c, i + 1) {
        var j :| i + 1 <= j < |WhiteTable| && WhiteTable[j] == c;
        assert i <= j;
      }
    }
  }

  /** White space is the table's contents. */
  lemma WhiteIsTable(c: char)
    ensures IsWhite(c) <==> c in WhiteTable
  {
    WhiteFromIn(c, 0);
  }

  lemma SpaceIsWhite()
    ensures IsWhite(' ')
  {
  }

  /** Printable ASCII other than the space is not white space. */
  lemma PrintableNotWhite(c: char)
    requires ' ' < c <= '~'
    ensures !IsWhite(c)
  {
    WhiteIsTable(c);
    assert forall j :: 0 <= j < |WhiteTable| ==> WhiteTable[j] == ' ' || WhiteTable[j] < ' ' || WhiteTable[j] > '~';
  }

  predicate AllWhite(s: string) {
    forall i :: 0 <= i < |s| ==> IsWhite(s[i])
  }

  /** Neither end of `s` is white space. */
  predicate Trimmed(s: string) {
    |s| == 0 || (!IsWhite(s[0]) && !IsWhite(s[|s| - 1]))
  }

  /** Length of the longest run of white space starting at `from` (also greedy `\s*`). */
  function WhiteRun(s: string, from: nat): (n: nat)
    requires from <= |s|
    ensures from + n <= |s|
    ensures forall j :: from <= j < from + n ==> IsWhite(s[j])
    ensures from + n == |s| || !IsWhite(s[from + n])
    decreases |s| - from
  {
    if from == |s| || !IsWhite(s[from]) then 0 else 1 + WhiteRun(s, from + 1)
  }

  /** Length of the longest run of white space ending just before `to`. */
  function WhiteRunBack(s: string, to: nat): (n: nat)
    requires to <= |s|
    ensures n <= to
    ensures forall j :: to - n <= j < to ==> IsWhite(s[j])
    ensures n == to || !IsWhite(s[to - n - 1])
  {
    if to == 0 || !IsWhite(s[to - 1]) then 0 else 1 + WhiteRunBack(s, to - 1)
  }

  function TrimStart(s: string): (r: string)
    ensures |r| <= |s| && r == s[|s| - |r|..]
    ensures AllWhite(s[..|s| - |r|])
    ensures |r| == 0 || !IsWhite(r[0])
  {
    s[WhiteRun(s, 0)..]
  }

  function TrimEnd(s: string): (r: string)
    ensures |r| <= |s| && r == s[..|r|]
    ensures AllWhite(s[|r|..])
    ensures |r| == 0 || !IsWhite(r[|r| - 1])
  {
    s[..|s| - WhiteRunBack(s, |s|)]
  }

  /** `r` is `s` with the white run `s[..i]` before it and a white run after it. */
  predicate TrimOf(s: string, r: string, i: int) {
    0 <= i <= |s| - |r| && AllWhite(s[..i]) && r == s[i..i + |r|] && AllWhite(s[i + |r|..])
  }

  /** `String.prototype.trim`: the white margins on both sides are removed. */
  function Trim(s: string): (r: string)
    ensures Trimmed(r)
    ensures exists i :: TrimOf(s, r, i)
  {
    var t := TrimStart(s);
    var r := TrimEnd(t);
    var i := |s| - |t|;
    assert t == s[i..];
    assert r == s[i..i + |r|];
    assert s[i + |r|..] == t[|r|..];
    assert TrimOf(s, r, i);
    r
  }

  lemma TrimEmpty()
    ensures Trim("") == ""
  {
  }

  /** Trimming text whose ends are not white space changes nothing. */
  lemma TrimTrimmed(s: string)
    requires Trimmed(s)
    ensures Trim(s) == s
  {
  }

  /** Trimming only removes characters. */
  lemma TrimChars(s: string)
    ensures forall c :: c in Trim(s) ==> c in s
  {
    var r := Trim(s);
    var i :| TrimOf(s, r, i);
    forall c | c in r ensures c in s {
      var j :| 0 <= j < |r| && r[j] == c;
      assert s[i + j] == c;
    }
  }

  /** One white character before a trimmed text is all that trimming removes. */
  lemma TrimAfterWhite(c: char, z: string)
    requires IsWhite(c) && |z| > 0 && Trimmed(z)
    ensures Trim([c] + z) == z
  {
    var s := [c] + z;
    assert s[1] == z[0];
    assert WhiteRun(s, 0) == 1;
    assert s[1..] == z;
  }

  /** One white character after a trimmed text is all that trimming removes. */
  lemma TrimBeforeWhite(z: string, c: char)
    requires IsWhite(c) && |z| > 0 && Trimmed(z)
    ensures Trim(z + [c]) == z
  {
    var s := z + [c];
    assert s[0] == z[0];
    assert WhiteRun(s, 0) == 0;
    assert s[|s| - 2] == z[|z| - 1];
    assert WhiteRunBack(s, |s|) == 1;
    assert s[..|s| - 1] == z;
  }

  /** A white run inside `x` ends inside `x` when `z` starts with a non-white character. */
  lemma {:induction false} WhiteRunAppend(x: string, z: string, from: nat)
    requires from <= |x| && |z| > 0 && !IsWhite(z[0])
    ensures WhiteRun(x + z, from) == WhiteRun(x, from)
    decreases |x| - from
  {
    if from < |x| {
      assert (x + z)[from] == x[from];
      if IsWhite(x[from]) {
        WhiteRunAppend(x, z, from + 1);
      }
    } else {
      assert (x + z)[from] == z[0];
    }
  }

  /** Trimming the front stops at a non-white character, so it never reaches into `z`. */
  lemma TrimStartAppend(x: string, z: string)
    requires |z| > 0 && !IsWhite(z[0])
    ensures TrimStart(x + z) == TrimStart(x) + z
  {
    WhiteRunAppend(x, z, 0);
    var n := WhiteRun(x, 0);
    assert (x + z)[n..] == x[n..] + z;
  }

  /** A text ending in a non-white block keeps that block whole when trimmed. */
  lemma TrimKeepsSuffix(x: string, z: string)
    requires |z| > 0 && !IsWhite(z[0]) && !IsWhite(z[|z| - 1])
    ensures Trim(x + z) == TrimStart(x) + z
    ensures EndsWith(Trim(x + z), z)
  {
    TrimStartAppend(x, z);
    var y := TrimStart(x) + z;
    assert y[|y| - 1] == z[|z| - 1];
    assert WhiteRunBack(y, |y|) == 0;
    assert TrimEnd(y) == y;
    assert y[|y| - |z|..] == z;
  }

  /** `s.endsWith(t)`. */
  predicate EndsWith(s: string, t: string) {
    |t| <= |s| && s[|s| - |t|..] == t
  }

  /** `needle` occurs in `hay` starting at index `k`. */
  predicate OccursAt(hay: string, needle: string, k: int) {
    0 <= k && k + |needle| <= |hay| && hay[k..k + |needle|] == needle
  }

  /** `String.prototype.includes`, scanning start positions left to right. */
  predicate Contains(hay: string, needle: string)
    decreases |hay|
  {
    needle <= hay || (|hay| > 0 && Contains(hay[1..], needle))
  }

  /** An occurrence is either at the front or an occurrence in the tail. */
  lemma OccursAtShift(hay: string, needle: string, k: int)
    ensures OccursAt(hay, needle, k) ==>
      (k == 0 && needle <= hay) || (k > 0 && |hay| > 0 && OccursAt(hay[1..], needle, k - 1))
    ensures |hay| > 0 && OccursAt(hay[1..], needle, k - 1) ==> OccursAt(hay, needle, k)
  {
    if |hay| > 0 && 1 <= k && k + |needle| <= |hay| {
      assert hay[1..][k - 1..k - 1 + |needle|] == hay[k..k + |needle|];
    }
  }

  /** The scanning definition of `includes` agrees with "occurs at some index". */
  lemma {:induction false} ContainsIff(hay: string, needle: string)
    ensures Contains(hay, needle) <==> exists k :: OccursAt(hay, needle, k)
    decreases |hay|
  {
    forall k ensures OccursAt(hay, needle, k) ==>
      (k == 0 && needle <= hay) || (k > 0 && |hay| > 0 && OccursAt(hay[1..], needle, k - 1))
    {
      OccursAtShift(hay, needle, k);
    }
    if needle <= hay {
      assert OccursAt(hay, needle, 0);
    } else if |hay| > 0 {
      ContainsIff(hay[1..], needle);
      if Contains(hay[1..], needle) {
        var k :| OccursAt(hay[1..], needle, k);
        OccursAtShift(hay, needle, k + 1);
      }
    }
  }

  /** The empty string is included in every string (so an empty query matches everything). */
  lemma ContainsEmpty(hay: string)
    ensures Contains(hay, "")
  {
  }

  /** The first index in `[from, limit]` where `p` holds: a leftmost regular-expression search. */
  function FirstFrom(from: nat, limit: nat, p: nat -> bool): (r: Option<nat>)
    ensures r.Some? ==> from <= r.value <= limit && p(r.value)
    ensures r.Some? ==> forall j :: from <= j < r.value ==> !p(j)
    ensures r.None? ==> forall j :: from <= j <= limit ==> !p(j)
    decreases limit + 1 - from
  {
    if from > limit then None
    else if p(from) then Some(from)
    else FirstFrom(from + 1, limit, p)
  }

  /** `String.prototype.indexOf`: the first index at which `pat` occurs. */
  function IndexOf(s: string, pat: string): (r: Option<nat>)
    ensures r.Some? ==> OccursAt(s, pat, r.value) && forall j :: 0 <= j < r.value ==> !OccursAt(s, pat, j)
    ensures r.None? ==> forall j :: !OccursAt(s, pat, j)
  {
    var p := (k: nat) => OccursAt(s, pat, k);
    var r := FirstFrom(0, |s|, p);
    assert forall j :: 0 <= j <= |s| ==> p(j) == OccursAt(s, pat, j);
    r
  }

  /** `String.prototype.replace` with a string pattern: only the first occurrence is replaced. */
  function ReplaceFirst(s: string, pat: string, rep: string): (r: string)
    ensures IndexOf(s, pat).None? ==> r == s
    ensures IndexOf(s, pat).Some? ==>
      var k := IndexOf(s, pat).value; r == s[..k] + rep + s[k + |pat|..]
  {
    match IndexOf(s, pat)
    case None => s
    case Some(k) => s[..k] + rep + s[k + |pat|..]
  }

  /** `s.replace(/c/g, '')`: every `c` removed, every other character kept in order. */
  function RemoveChar(s: string, c: char): (r: string)
    ensures c !in r
    ensures forall d :: d != c ==> (d in r <==> d in s)
    ensures |r| <= |s|
  {
    if |s| == 0 then ""
    else (if s[0] == c then "" else [s[0]]) + RemoveChar(s[1..], c)
  }

  /** Removal works piecewise, so the characters kept stay in their original order. */
  lemma {:induction false} RemoveCharAppend(a: string, b: string, c: char)
    ensures RemoveChar(a + b, c) == RemoveChar(a, c) + RemoveChar(b, c)
    decreases |a|
  {
    if |a| > 0 {
      assert (a + b)[1..] == a[1..] + b;
      RemoveCharAppend(a[1..], b, c);
    } else {
      assert a + b == b;
    }
  }

  /** Text without the character is left as it is. */
  lemma {:induction false} RemoveCharAbsent(s: string, c: char)
    requires c !in s
    ensures RemoveChar(s, c) == s
  {
    if |s| > 0 {
      assert s[0] != c;
      assert c !in s[1..] by { assert forall d :: d in s[1..] ==> d in s; }
      RemoveCharAbsent(s[1..], c);
      assert [s[0]] + s[1..] == s;
    }
  }

  /** `String.prototype.split(sep)` for a one-character separator: empty pieces are kept. */
  function Split(s: string, sep: char): (r: seq<string>)
    ensures |r| >= 1
    ensures forall i :: 0 <= i < |r| ==> sep !in r[i]
  {
    if |s| == 0 then [""]
    else
      var rest := Split(s[1..], sep);
      if s[0] == sep then [""] + rest
      else [[s[0]] + rest[0]] + rest[1..]
  }

  /** `Array.prototype.join(sep)`. */
  function Join(ws: seq<string>, sep: char): string
  {
    if |ws| == 0 then ""
    else if |ws| == 1 then ws[0]
    else ws[0] + [sep] + Join(ws[1..], sep)
  }

  /** Joining the pieces of a split restores the text. */
  lemma {:induction false} JoinSplit(s: string, sep: char)
    ensures Join(Split(s, sep), sep) == s
  {
    if |s| > 0 {
      var rest := Split(s[1..], sep);
      JoinSplit(s[1..], sep);
      if s[0] == sep {
        assert Split(s, sep) == [""] + rest;
        assert ([""] + rest)[1..] == rest;
      } else {
        var ws := [[s[0]] + rest[0]] + rest[1..];
        assert Split(s, sep) == ws;
        if |rest| == 1 {
          assert Join(rest, sep) == rest[0];
        } else {
          assert ws[1..] == rest[1..];
          assert Join(rest, sep) == rest[0] + [sep] + Join(rest[1..], sep);
        }
      }
    }
  }

  /** Splitting a join of separator-free pieces gives the pieces back. */
  lemma {:induction false} SplitJoin(ws: seq<string>, sep: char)
    requires |ws| >= 1
    requires forall i :: 0 <= i < |ws| ==> sep !in ws[i]
    ensures Split(Join(ws, sep), sep) == ws
    decreases |ws|, |ws[0]|
  {
    if |ws[0]| > 0 {
      var w := ws[0];
      var ws' := [w[1..]] + ws[1..];
      assert forall i :: 0 <= i < |ws'| ==> sep !in ws'[i] by {
        assert forall c :: c in w[1..] ==> c in w;
      }
      SplitJoin(ws', sep);
      JoinConsFirst(w, ws[1..], sep);
      assert Join(ws, sep) == [w[0]] + Join(ws', sep);
      assert w[0] != sep by { assert w[0] in w; }
      assert [w[0]] + w[1..] == w;
    } else if |ws| > 1 {
      SplitJoin(ws[1..], sep);
      assert Join(ws, sep) == [sep] + Join(ws[1..], sep);
      assert ([sep] + Join(ws[1..], sep))[1..] == Join(ws[1..], sep);
      assert [""] + ws[1..] == ws;
    }
  }

  lemma JoinConsFirst(w: string, tail: seq<string>, sep: char)
    requires |w| > 0
    ensures Join([w] + tail, sep) == [w[0]] + Join([w[1..]] + tail, sep)
  {
    if |tail| == 0 {
      assert [w] + tail == [w];
      assert [w[1..]] + tail == [w[1..]];
    } else {
      assert ([w] + tail)[1..] == tail;
      assert ([w[1..]] + tail)[1..] == tail;
    }
  }
}
