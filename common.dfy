/** Shared vocabulary: bytes, and the Python exceptions that the modelled code can raise. */
module Common {

  /** An item of a `bytearray`: a Python int in 0..255. */
  type byte = x: int | 0 <= x < 256

  /** The built-in exceptions reachable from the modelled code. */
  datatype PyError =
    | OverflowError   // int.to_bytes with a value too large for the width
    | ValueError      // bytearray() of an int outside 0..255, datetime() of an invalid date
    | IndexError      // indexing past the end of a bytearray

  /** Either a value or the exception the source raises instead. */
  datatype Result<+T> = Ok(value: T) | Err(error: PyError)

  datatype Option<+T> = None | Some(value: T)

  function Last<T>(s: seq<T>): T
    requires |s| > 0
  {
    s[|s| - 1]
  }

  function DropLast<T>(s: seq<T>): seq<T>
    requires |s| > 0
  {
    s[..|s| - 1]
  }

  /** A non-empty sequence is its first item and the rest. */
  lemma SplitFirst<T>(s: seq<T>)
    requires |s| > 0
    ensures s == [s[0]] + s[1..] && multiset(s) == multiset{s[0]} + multiset(s[1..])
  {
  }

  /** Inserting an item adds exactly that item. */
  lemma InsertMembers<T>(s: seq<T>, i: nat, x: T)
    requires i <= |s|
    ensures multiset(s[..i] + [x] + s[i..]) == multiset(s) + multiset{x}
  {
    assert s == s[..i] + s[i..];
  }

  /** The two halves around an insertion point. */
  lemma InsertShape<T>(s: seq<T>, i: nat, x: T)
    requires i <= |s|
    ensures s[..i] + [x] + s[i..] == s[..i] + ([x] + s[i..]) && s == s[..i] + s[i..]
  {
  }

  lemma PrependEmpty<T>(a: seq<T>, b: seq<T>)
    requires a == []
    ensures a + b == b
  {
  }

  lemma ConcatFirst<T>(a: seq<T>, b: seq<T>)
    requires a != []
    ensures (a + b)[0] == a[0] && (a + b)[1..] == a[1..] + b
  {
  }
}
