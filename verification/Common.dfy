/** Constants of the storage engine, and a few notions about sequences. */
module Common {
  datatype Option<+T> = None | Some(value: T)

  const PAGE_SIZE := 512
  const INVALID_PAGE_ID := -1

  ghost predicate Distinct<T>(s: seq<T>) {
    forall i, j :: 0 <= i < j < |s| ==> s[i] != s[j]
  }

  ghost function Elements<T>(s: seq<T>): set<T> {
    set x | x in s
  }

  function Without<T>(s: seq<T>, i: nat): seq<T>
    requires i < |s|
  {
    s[..i] + s[i + 1..]
  }

  /** The sequence without the first v. */
  function Drop<T(==)>(s: seq<T>, v: T): (r: seq<T>)
    ensures |r| <= |s|
  {
    if s == [] then [] else if s[0] == v then s[1..] else [s[0]] + Drop(s[1..], v)
  }

  lemma {:induction false} DropAt<T>(s: seq<T>, i: nat)
    requires i < |s| && Distinct(s)
    ensures Drop(s, s[i]) == s[..i] + s[i + 1..]
  {
    if i == 0 {
      assert s[..0] + s[1..] == s[1..];
    } else {
      DropAt(s[1..], i - 1);
      assert s[..i] == [s[0]] + s[1..][..i - 1];
      assert s[1..][i..] == s[i + 1..];
    }
  }

  lemma {:induction false} DropAbsent<T>(s: seq<T>, v: T)
    requires v !in s
    ensures Drop(s, v) == s
  {
    if s != [] { DropAbsent(s[1..], v); }
  }
}
