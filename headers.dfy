/**
 * The response header list as the filter sees it through the host: an
 * ordered list of name/value pairs whose names compare without regard to
 * ASCII case.
 */
module Headers {

  type Header = (string, string)

  /** ASCII lower-casing of one character; every other character is kept. */
  function LowerChar(c: char): (r: char)
    ensures 'A' <= c <= 'Z' ==> r as int == c as int + 32
    ensures !('A' <= c <= 'Z') ==> r == c
  {
    if 'A' <= c <= 'Z' then (c as int + 32) as char else c
  }

  function Lower(s: string): (r: string)
    ensures |r| == |s|
    ensures forall i :: 0 <= i < |s| ==> r[i] == LowerChar(s[i])
  {
    if s == [] then [] else [LowerChar(s[0])] + Lower(s[1..])
  }

  /** Two header names denote the same header. */
  predicate SameName(a: string, b: string) {
    Lower(a) == Lower(b)
  }

  /** The number of headers called `name`. */
  function Count(hs: seq<Header>, name: string): (n: nat)
    ensures n <= |hs|
    ensures n == 0 <==> forall i :: 0 <= i < |hs| ==> !SameName(hs[i].0, name)
  {
    if hs == [] then 0
    else (if SameName(hs[0].0, name) then 1 else 0) + Count(hs[1..], name)
  }

  /**
   * Removing a response header: every header called `name` goes, every
   * other header stays as often as it occurred, in its order, and a list
   * without `name` is left as it is.
   */
  function RemoveHeader(hs: seq<Header>, name: string): (r: seq<Header>)
    ensures forall i :: 0 <= i < |r| ==> !SameName(r[i].0, name)
    ensures forall h :: h in r <==> h in hs && !SameName(h.0, name)
    ensures forall h: Header :: !SameName(h.0, name) ==> multiset(r)[h] == multiset(hs)[h]
    ensures |r| == |hs| - Count(hs, name)
    ensures Count(hs, name) == 0 ==> r == hs
  {
    if hs == [] then []
    else
      assert hs == [hs[0]] + hs[1..];
      if SameName(hs[0].0, name) then RemoveHeader(hs[1..], name)
      else [hs[0]] + RemoveHeader(hs[1..], name)
  }

  /** Removal keeps order: removing from two lists joined is removing from each. */
  lemma {:induction false} RemoveHeaderAppend(hs: seq<Header>, ks: seq<Header>, name: string)
    ensures RemoveHeader(hs + ks, name) == RemoveHeader(hs, name) + RemoveHeader(ks, name)
  {
    if hs == [] {
      assert hs + ks == ks;
    } else {
      var both := hs + ks;
      assert both[0] == hs[0] && both[1..] == hs[1..] + ks;
      RemoveHeaderAppend(hs[1..], ks, name);
      var r, q := RemoveHeader(hs[1..], name), RemoveHeader(ks, name);
      if SameName(hs[0].0, name) {
        calc {
          RemoveHeader(both, name);
          RemoveHeader(hs[1..] + ks, name);
          r + q;
          RemoveHeader(hs, name) + q;
        }
      } else {
        calc {
          RemoveHeader(both, name);
          [hs[0]] + RemoveHeader(hs[1..] + ks, name);
          [hs[0]] + (r + q);
          ([hs[0]] + r) + q;
          RemoveHeader(hs, name) + q;
        }
      }
    }
  }

  lemma {:induction false} CountAppend(hs: seq<Header>, ks: seq<Header>, name: string)
    ensures Count(hs + ks, name) == Count(hs, name) + Count(ks, name)
  {
    if hs == [] {
      assert hs + ks == ks;
    } else {
      assert (hs + ks)[1..] == hs[1..] + ks;
      CountAppend(hs[1..], ks, name);
    }
  }

  /** Removing `name` leaves the count of every other header as it was. */
  lemma {:induction false} RemoveKeepsOthers(hs: seq<Header>, name: string, other: string)
    requires !SameName(name, other)
    ensures Count(RemoveHeader(hs, name), other) == Count(hs, other)
  {
    if hs != [] {
      RemoveKeepsOthers(hs[1..], name, other);
      if !SameName(hs[0].0, name) {
        var rest := RemoveHeader(hs[1..], name);
        assert ([hs[0]] + rest)[1..] == rest;
      }
    }
  }

  /**
   * Adding one header to a list after removing another: the removed name
   * is gone and the added one is there once more than before.
   */
  lemma RemoveThenAdd(hs: seq<Header>, removed: string, added: Header)
    requires !SameName(removed, added.0)
    ensures Count(RemoveHeader(hs, removed) + [added], removed) == 0
    ensures Count(RemoveHeader(hs, removed) + [added], added.0) == Count(hs, added.0) + 1
  {
    var r := RemoveHeader(hs, removed);
    CountAppend(r, [added], removed);
    CountAppend(r, [added], added.0);
    RemoveKeepsOthers(hs, removed, added.0);
    assert [added][1..] == [];
  }
}
