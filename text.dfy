/**
 * The two PHP string primitives the merges depend on: `trim()` with its
 * default character list, and `empty()` applied to a string.
 */
module Text {

  /** The characters PHP's `trim()` strips by default: space, tab, newline,
      carriage return, NUL and vertical tab. */
  predicate IsBlank(c: char) {
    c == ' ' || c == '\t' || c == '\n' || c == '\r' || c == '\0' || c == '\U{0B}'
  }

  /** A string with no blank at either end. */
  predicate IsTrimmed(s: string) {
    s == [] || (!IsBlank(s[0]) && !IsBlank(s[|s| - 1]))
  }

  /** `empty($s)` for a string: true for "" and for "0". */
  predicate PhpEmpty(s: string) {
    s == "" || s == "0"
  }

  /** Drops the leading blanks: the result is a suffix of `s` that does not
      start with a blank. */
  function TrimStart(s: string): (r: string)
    ensures |r| <= |s| && r == s[|s| - |r|..]
    ensures r == [] || !IsBlank(r[0])
  {
    if s != [] && IsBlank(s[0]) then TrimStart(s[1..]) else s
  }

  /** Drops the trailing blanks: the result is a prefix of `s` that does not
      end with a blank. */
  function TrimEnd(s: string): (r: string)
    ensures |r| <= |s| && r == s[..|r|]
    ensures r == [] || !IsBlank(r[|r| - 1])
  {
    if s != [] && IsBlank(s[|s| - 1]) then TrimEnd(s[..|s| - 1]) else s
  }

  /** PHP `trim($s)`: no blank is left at either end. */
  function Trim(s: string): (r: string)
    ensures IsTrimmed(r)
  {
    TrimEnd(TrimStart(s))
  }

  lemma {:induction false} TrimStartCutsBlanks(s: string)
    ensures forall k :: 0 <= k < |s| - |TrimStart(s)| ==> IsBlank(s[k])
  {
    if s != [] && IsBlank(s[0]) {
      TrimStartCutsBlanks(s[1..]);
    }
  }

  lemma {:induction false} TrimEndCutsBlanks(s: string)
    ensures forall k :: |TrimEnd(s)| <= k < |s| ==> IsBlank(s[k])
  {
    if s != [] && IsBlank(s[|s| - 1]) {
      TrimEndCutsBlanks(s[..|s| - 1]);
    }
  }

  /** What `trim()` cuts off is blank: the result is the slice of `s` between
      a run of leading blanks and a run of trailing blanks. */
  lemma TrimCutsBlanks(s: string)
    ensures exists i :: 0 <= i <= |s| && |Trim(s)| <= |s[i..]| && Trim(s) == s[i..][..|Trim(s)|]
                        && (forall k :: 0 <= k < i ==> IsBlank(s[k]))
                        && (forall k :: i + |Trim(s)| <= k < |s| ==> IsBlank(s[k]))
  {
    var t := TrimStart(s);
    var r := Trim(s);
    var i := |s| - |t|;
    TrimStartCutsBlanks(s);
    TrimEndCutsBlanks(t);
    assert t == s[i..];
    forall k | i + |r| <= k < |s| ensures IsBlank(s[k]) {
      assert s[k] == t[k - i];
    }
  }

  /** Trimming changes a string exactly when it has a blank at an end; in
      particular trimming twice is trimming once. */
  lemma TrimFixesTrimmed(s: string)
    ensures Trim(s) == s <==> IsTrimmed(s)
  {
    if IsTrimmed(s) {
      assert TrimStart(s) == s;
      assert TrimEnd(s) == s;
    }
  }

  lemma TrimIdempotent(s: string)
    ensures Trim(Trim(s)) == Trim(s)
  {
    TrimFixesTrimmed(Trim(s));
  }
}
