/** Small vocabulary shared by all the models. */
module Basics {

  datatype Option<+T> = None | Some(value: T)

  /** The kernel's vsf_err_t results that the models distinguish. */
  datatype Err = Ok | Fail | NotEnoughResources | NotAvailable | AlreadyExists | InvalidParameter

  /** The event that stands for all events when cleaning. */
  const VSF_EVT_NONE: int := 0

  /** No element occurs twice. */
  ghost predicate NoDup(s: seq<nat>) {
    forall i, j :: 0 <= i < j < |s| ==> s[i] != s[j]
  }

  /** Unlinks the first occurrence of `x`: what removing an element from an intrusive list does. */
  function Remove(s: seq<nat>, x: nat): (r: seq<nat>) {
    if s == [] then [] else if s[0] == x then s[1..] else [s[0]] + Remove(s[1..], x)
  }

  /** Removing an element that occurs once keeps everything else, in order. */
  lemma {:induction false} RemoveAt(s: seq<nat>, i: nat)
    requires NoDup(s) && i < |s|
    ensures Remove(s, s[i]) == s[..i] + s[i + 1..]
  {
    if i == 0 {
      assert s[..0] + s[1..] == s[1..];
    } else {
      var tail := s[1..];
      assert NoDup(tail) by {
        forall a, b | 0 <= a < b < |tail| ensures tail[a] != tail[b] {
          assert s[a + 1] != s[b + 1];
        }
      }
      assert s[0] != s[i];
      RemoveAt(tail, i - 1);
      assert s[..i] == [s[0]] + tail[..i - 1];
      assert s[i + 1..] == tail[i..];
    }
  }

  /** Set view of `RemoveAt`. */
  lemma RemoveMembers(s: seq<nat>, x: nat)
    requires NoDup(s) && x in s
    ensures NoDup(Remove(s, x))
    ensures |Remove(s, x)| + 1 == |s|
    ensures forall y :: y in Remove(s, x) <==> y in s && y != x
  {
    var i :| 0 <= i < |s| && s[i] == x;
    RemoveAt(s, i);
    CutNoDup(s, i);
    forall y ensures y in Remove(s, x) <==> y in s && y != x { CutMember(s, i, y); }
  }

  lemma CutNoDup(s: seq<nat>, i: nat)
    requires NoDup(s) && i < |s|
    ensures NoDup(s[..i] + s[i + 1..])
  {
    var r := s[..i] + s[i + 1..];
    forall a, b | 0 <= a < b < |r| ensures r[a] != r[b] {
      assert s[if a < i then a else a + 1] != s[if b < i then b else b + 1];
    }
  }

  lemma CutMember(s: seq<nat>, i: nat, y: nat)
    requires NoDup(s) && i < |s|
    ensures y in s[..i] + s[i + 1..] <==> y in s && y != s[i]
  {
    var r := s[..i] + s[i + 1..];
    if y in s && y != s[i] {
      var j :| 0 <= j < |s| && s[j] == y;
      assert r[if j < i then j else j - 1] == y;
    }
    if y in r {
      var j :| 0 <= j < |r| && r[j] == y;
      assert s[if j < i then j else j + 1] == y;
    }
  }

  /** Appending a new element keeps the elements distinct. */
  lemma AppendNoDup(s: seq<nat>, x: nat)
    requires NoDup(s) && x !in s
    ensures NoDup(s + [x])
  {
  }
}
