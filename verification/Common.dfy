/**
 What several modules share: an optional value, lower case, and sequences as sets.
 */
module Common {

  datatype Option<+T> = None | Some(value: T)

  function LowerChar(c: char): (r: char)
    ensures r as int == c as int + if 65 <= c as int < 65 + 26 then 32 else 0
  {
    if 'A' <= c <= 'Z' then c + ('a' - 'A') else c
  }

  /** str.lower(), on ASCII letters. */
  function Lower(s: string): (r: string)
    ensures |r| == |s| && forall i :: 0 <= i < |s| ==> r[i] == LowerChar(s[i])
  {
    if s == [] then [] else [LowerChar(s[0])] + Lower(s[1..])
  }

  function Elements<T>(s: seq<T>): set<T> { set x | x in s }

  predicate Distinct<T(==)>(s: seq<T>) {
    forall i, j :: 0 <= i < j < |s| ==> s[i] != s[j]
  }

  lemma Regroup<T>(a: seq<T>, b: seq<T>, c: seq<T>)
    ensures (a + b) + c == a + (b + c)
  {
  }
}
