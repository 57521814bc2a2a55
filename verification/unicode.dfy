/**
 * The JavaScript runtime's Unicode-aware string primitives that the code relies on but that
 * are not modelled here: `toLowerCase`, `toUpperCase`, `normalize('NFD')` (Unicode Standard
 * Annex #15) and `localeCompare`. They enter every operation as one explicit parameter, so
 * each contract holds whatever the tables are; a property that depends on a fact about them
 * names that fact as a premise.
 */
module Unicode {

  datatype TextOps = TextOps(
    lower: string -> string,
    upper: string -> string,
    nfd: string -> string,
    localeCompare: (string, string) -> int)

  /** `localeCompare` orders any two strings one way or the other (a connected relation). */
  ghost predicate ComparatorConnected(cmp: (string, string) -> int) {
    forall a, b :: cmp(a, b) <= 0 || cmp(b, a) <= 0
  }

  predicate IsAsciiLower(c: char) { 'a' <= c <= 'z' }
  predicate IsAsciiUpper(c: char) { 'A' <= c <= 'Z' }
  predicate IsAsciiDigit(c: char) { '0' <= c <= '9' }

  function AsciiLowerChar(c: char): (r: char)
    ensures IsAsciiUpper(c) ==> IsAsciiLower(r)
    ensures !IsAsciiUpper(c) ==> r == c
  {
    if IsAsciiUpper(c) then (c as int + 32) as char else c
  }

  function AsciiUpperChar(c: char): (r: char)
    ensures IsAsciiLower(c) ==> IsAsciiUpper(r)
    ensures !IsAsciiLower(c) ==> r == c
  {
    if IsAsciiLower(c) then (c as int - 32) as char else c
  }

  /** ASCII-only case mapping: one admissible instance of the runtime's `toLowerCase`. */
  function AsciiLower(s: string): (r: string)
    ensures |r| == |s|
    ensures forall i :: 0 <= i < |s| ==> r[i] == AsciiLowerChar(s[i])
  {
    if |s| == 0 then "" else [AsciiLowerChar(s[0])] + AsciiLower(s[1..])
  }

  /** ASCII-only case mapping: one admissible instance of the runtime's `toUpperCase`. */
  function AsciiUpper(s: string): (r: string)
    ensures |r| == |s|
    ensures forall i :: 0 <= i < |s| ==> r[i] == AsciiUpperChar(s[i])
  {
    if |s| == 0 then "" else [AsciiUpperChar(s[0])] + AsciiUpper(s[1..])
  }

  /**
   * Order by Unicode scalar value, one admissible instance of `localeCompare`. It is not
   * UTF-16 code-unit order: characters above U+FFFF sort after U+E000..U+FFFF here.
   */
  function ScalarCompare(a: string, b: string): (r: int)
    ensures a == b ==> r == 0
  {
    if |a| == 0 && |b| == 0 then 0
    else if |a| == 0 then -1
    else if |b| == 0 then 1
    else if a[0] < b[0] then -1
    else if a[0] > b[0] then 1
    else ScalarCompare(a[1..], b[1..])
  }

  function Identity(s: string): string { s }

  /** The ASCII-only runtime used by the worked examples. */
  const AsciiOps: TextOps := TextOps(AsciiLower, AsciiUpper, Identity, ScalarCompare)

  lemma {:induction false} ScalarCompareConnected(a: string, b: string)
    ensures ScalarCompare(a, b) <= 0 || ScalarCompare(b, a) <= 0
    decreases |a|
  {
    if |a| > 0 && |b| > 0 && a[0] == b[0] {
      ScalarCompareConnected(a[1..], b[1..]);
    }
  }

  lemma AsciiOpsConnected()
    ensures ComparatorConnected(AsciiOps.localeCompare)
  {
    forall a, b ensures ScalarCompare(a, b) <= 0 || ScalarCompare(b, a) <= 0 {
      ScalarCompareConnected(a, b);
    }
  }
}
