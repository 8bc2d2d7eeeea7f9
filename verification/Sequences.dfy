/** What several modules need about sequences. */
module Sequences {

  /** Appending the next `k` elements of `p` after its first `done`. */
  lemma AppendNext<T>(base: seq<T>, p: seq<T>, done: nat, k: nat)
    requires done + k <= |p|
    ensures base + p[..done] + p[done..][..k] == base + p[..done + k]
    ensures p[done..][k..] == p[done + k..]
  {
    assert p[..done] + p[done..][..k] == p[..done + k];
  }

  lemma Associative<T>(a: seq<T>, b: seq<T>, c: seq<T>)
    ensures a + b + c == a + (b + c)
  {
  }

  lemma Cancel<T>(a: seq<T>, b: seq<T>, rest: seq<T>)
    ensures a + rest == b + rest <==> a == b
  {
    if a + rest == b + rest {
      assert a == (a + rest)[..|a|] && b == (b + rest)[..|a|];
    }
  }

  function Concat<T>(parts: seq<seq<T>>): seq<T> {
    if parts == [] then [] else parts[0] + Concat(parts[1..])
  }

  function JoinSep<T>(parts: seq<seq<T>>, sep: seq<T>): seq<T> {
    if parts == [] then []
    else if |parts| == 1 then parts[0]
    else parts[0] + sep + JoinSep(parts[1..], sep)
  }

  lemma {:induction false} ConcatAppend<T>(parts: seq<seq<T>>, part: seq<T>)
    ensures Concat(parts + [part]) == Concat(parts) + part
  {
    if parts == [] {
      assert Concat([part]) == part + Concat([]);
    } else {
      assert (parts + [part])[1..] == parts[1..] + [part];
      ConcatAppend(parts[1..], part);
    }
  }

  lemma {:induction false} ConcatSplit<T>(parts: seq<seq<T>>, i: nat)
    requires i <= |parts|
    ensures Concat(parts) == Concat(parts[..i]) + Concat(parts[i..])
  {
    if i > 0 {
      assert parts[..i][1..] == parts[1..][..i - 1];
      ConcatSplit(parts[1..], i - 1);
    }
  }

  lemma {:induction false} JoinSepAppend<T>(parts: seq<seq<T>>, part: seq<T>, sep: seq<T>)
    requires parts != []
    ensures JoinSep(parts + [part], sep) == JoinSep(parts, sep) + sep + part
  {
    if |parts| == 1 {
      assert (parts + [part])[1..] == [part];
    } else {
      assert (parts + [part])[1..] == parts[1..] + [part];
      JoinSepAppend(parts[1..], part, sep);
      assert parts[0] + sep + (JoinSep(parts[1..], sep) + sep + part) ==
        parts[0] + sep + JoinSep(parts[1..], sep) + sep + part;
    }
  }

  /** A queue after some steps, and what is left of it after more. */
  lemma RestOfRest<T>(q: seq<T>, x: seq<T>, k: nat, y: seq<T>, n: nat)
    requires k <= |q + x| && n <= |(q + x)[k..] + y|
    ensures k + n <= |q + (x + y)| && ((q + x)[k..] + y)[n..] == (q + (x + y))[k + n..]
  {
    assert q + (x + y) == q + x + y;
    assert (q + x)[k..] + y == (q + x + y)[k..];
  }
}
