/**
 * PHP's `ucwords` with its default word delimiters (space, tab, carriage
 * return, newline, form feed and vertical tab). Upper-casing is the ASCII
 * one: only 'a' to 'z' change.
 */
module PhpStrings {

  predicate IsDelimiter(c: char)
  {
    c == ' ' || c == '\t' || c == '\r' || c == '\n' || c == '\U{000C}' || c == '\U{000B}'
  }

  function Upper(c: char): char
  {
    if 'a' <= c <= 'z' then (c as int - 'a' as int + 'A' as int) as char else c
  }

  /** A word starts at position 0 and after every delimiter. */
  predicate WordStart(s: string, i: int)
    requires 0 <= i < |s|
  {
    i == 0 || IsDelimiter(s[i - 1])
  }

  /**
   * The scan `ucwords` performs: `atStart` says whether the previous
   * character was a delimiter (or there was none).
   */
  function UcwordsFrom(s: string, atStart: bool): (r: string)
    ensures |r| == |s|
    ensures |s| > 0 ==> r[0] == (if atStart then Upper(s[0]) else s[0])
    ensures forall i :: 1 <= i < |s| ==> r[i] == (if IsDelimiter(s[i - 1]) then Upper(s[i]) else s[i])
  {
    if s == [] then []
    else [if atStart then Upper(s[0]) else s[0]] + UcwordsFrom(s[1..], IsDelimiter(s[0]))
  }

  /**
   * PHP's `ucwords($s)`: the length is kept, the first character of every
   * word is upper-cased and nothing else changes.
   */
  function Ucwords(s: string): (r: string)
    ensures |r| == |s|
    ensures forall i :: 0 <= i < |s| ==> r[i] == if WordStart(s, i) then Upper(s[i]) else s[i]
  {
    UcwordsFrom(s, true)
  }

  lemma UpperIdempotent(c: char)
    ensures Upper(Upper(c)) == Upper(c)
    ensures IsDelimiter(Upper(c)) == IsDelimiter(c)
  {
  }

  /** Applying `ucwords` twice changes nothing more. */
  lemma UcwordsIdempotent(s: string)
    ensures Ucwords(Ucwords(s)) == Ucwords(s)
  {
    var r := Ucwords(s);
    forall i | 0 <= i < |s|
      ensures Ucwords(r)[i] == r[i]
    {
      UpperIdempotent(s[i]);
      if i > 0 {
        UpperIdempotent(s[i - 1]);
      }
    }
  }

  /** The request methods the API uses come out capitalised. */
  lemma UcwordsMethods()
    ensures Ucwords("get") == "Get"
    ensures Ucwords("post") == "Post"
    ensures Ucwords("DELETE") == "DELETE"
  {
    assert Ucwords("DELETE")[0] == 'D';
  }
}
