/** Shared vocabulary: optional values, failures and a few facts about ascending sequences. */
module Common {

  datatype Option<+T> = None | Some(value: T)

  datatype Result<+T> = Ok(value: T) | Err(error: ErrorKind)

  /** The error kinds the scan path reports. */
  datatype ErrorKind = Unexpected | DataInvalid | FeatureUnsupported | IoFailure

  ghost predicate Ascending(s: seq<nat>) {
    forall i, j :: 0 <= i < j < |s| ==> s[i] < s[j]
  }

  /** The suffix of `s` that starts at its first element not below `x`. */
  function From(s: seq<nat>, x: nat): seq<nat> {
    if s == [] || s[0] >= x then s else From(s[1..], x)
  }

  lemma {:induction false} FromMembers(s: seq<nat>, x: nat)
    requires Ascending(s)
    ensures Ascending(From(s, x))
    ensures forall p :: p in From(s, x) <==> p in s && p >= x
  {
    if s != [] && s[0] < x {
      FromMembers(s[1..], x);
      assert s == [s[0]] + s[1..];
    }
  }

  /** An ascending sequence is determined by its elements. */
  lemma {:induction false} AscendingUnique(s: seq<nat>, t: seq<nat>)
    requires Ascending(s) && Ascending(t)
    requires forall p :: p in s <==> p in t
    ensures s == t
  {
    if s != [] {
      assert s[0] in t;
    }
    if t != [] {
      assert t[0] in s;
    }
    if s != [] {
      HeadIsLeast(s, t[0]);
      HeadIsLeast(t, s[0]);
      forall p
        ensures p in s[1..] <==> p in t[1..]
      {
        HeadIsLeast(s, p);
        HeadIsLeast(t, p);
      }
      AscendingUnique(s[1..], t[1..]);
      assert s == [s[0]] + s[1..] && t == [t[0]] + t[1..];
    }
  }

  lemma HeadIsLeast(s: seq<nat>, p: nat)
    requires Ascending(s) && s != []
    ensures p in s[1..] <==> p in s && p != s[0]
    ensures p in s ==> p >= s[0]
  {
    assert s == [s[0]] + s[1..];
    if p in s[1..] {
      var i :| 0 <= i < |s[1..]| && s[1..][i] == p;
      assert s[i + 1] == p;
    }
  }

  lemma ConsAscends(x: nat, s: seq<nat>)
    requires Ascending(s)
    requires forall p :: p in s ==> x < p
    ensures Ascending([x] + s)
  {
    forall i, j | 0 <= i < j < |[x] + s|
      ensures ([x] + s)[i] < ([x] + s)[j]
    {
      assert s[j - 1] in s;
    }
  }

  lemma SnocAscends(s: seq<nat>, x: nat)
    requires Ascending(s)
    requires forall p :: p in s ==> p < x
    ensures Ascending(s + [x])
  {
    forall i, j | 0 <= i < j < |s + [x]|
      ensures (s + [x])[i] < (s + [x])[j]
    {
      assert s[i] in s;
    }
  }

  lemma ConcatAssociative<T>(r: seq<T>, s: seq<T>, t: seq<T>)
    ensures r + (s + t) == (r + s) + t
  {
  }

  function Min(a: nat, b: nat): nat {
    if a <= b then a else b
  }

  function Max(a: nat, b: nat): nat {
    if a <= b then b else a
  }
}
