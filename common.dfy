/** Shared vocabulary of the model: document ids, optional request fields,
    handler outcomes, and the collection helpers the handlers rely on
    (MongoDB's `$pull` and a collection's natural order). */
module Common {

  /** Document ids. The database hands them out in increasing order, so a
      collection's natural order (insertion order) is ascending id order. */
  type Id = nat

  datatype Option<+T> = None | Some(value: T)

  /** What a handler answers. */
  datatype Status =
    | Ok            // 200 or 201
    | BadRequest    // 400
    | Unauthorized  // 401
    | NotFound      // 404
    | Rejected      // the database refused to save the document (schema validation or unique index)
    | Crashed       // the handler dereferenced a document that does not exist

  /** The authenticated caller that the `protect` middleware attaches to the request. */
  datatype Caller = Caller(id: Id, role: string)

  const AdminRole: string := "admin"

  /** JavaScript truthiness of an optional string field of a request body:
      undefined, null and "" are falsy, every other string is truthy. */
  predicate Truthy(s: Option<string>)
    ensures Truthy(s) <==> s != None && s != Some("")
  {
    s.Some? && s.value != ""
  }

  /** `given || current` where `current` is a stored string: the left
      operand when it is truthy, and the result is truthy when either is. */
  function OrElse(given: Option<string>, current: string): (r: string)
    ensures Truthy(given) ==> r == given.value
    ensures !Truthy(given) ==> r == current
    ensures r != "" <==> Truthy(given) || current != ""
  {
    if Truthy(given) then given.value else current
  }

  /** `given || current` where the stored value may itself be absent. */
  function OrElseOpt(given: Option<string>, current: Option<string>): (r: Option<string>)
    ensures Truthy(given) ==> r == given
    ensures !Truthy(given) ==> r == current
    ensures Truthy(r) <==> Truthy(given) || Truthy(current)
  {
    if Truthy(given) then given else current
  }

  /** `given || current` for an array field: any array, even an empty one, is truthy. */
  function OrElseList<T>(given: Option<seq<T>>, current: seq<T>): (r: seq<T>)
    ensures given.Some? ==> r == given.value
    ensures given.None? ==> r == current
  {
    if given.Some? then given.value else current
  }

  /** Map lookup as `findById`: None when no document has that id. */
  function Get<T>(m: map<Id, T>, id: Id): (r: Option<T>)
    ensures r.Some? <==> id in m
    ensures r.Some? ==> r.value == m[id]
  {
    if id in m then Some(m[id]) else None
  }

  /** Every id of the table was handed out before `bound`. */
  ghost predicate KeysBelow<T>(m: map<Id, T>, bound: nat)
  {
    forall id :: id in m ==> id < bound
  }

  ghost predicate NoDuplicates(s: seq<Id>)
  {
    forall x :: multiset(s)[x] <= 1
  }

  /** MongoDB `$pull` and Mongoose's array `pull`: every occurrence of `x`
      is removed, every other element keeps its number of occurrences. */
  function Pull(s: seq<Id>, x: Id): (r: seq<Id>)
    ensures x !in r
    ensures forall y :: y != x ==> multiset(r)[y] == multiset(s)[y]
    ensures forall y :: y in r <==> y in s && y != x
    ensures |r| == |s| - multiset(s)[x]
    ensures x !in s ==> r == s
  {
    if s == [] then []
    else
      assert s == [s[0]] + s[1..];
      if s[0] == x then Pull(s[1..], x) else [s[0]] + Pull(s[1..], x)
  }

  /** One step of `$pull`: the head goes when it is `x` and stays in front otherwise. */
  lemma PullCons(y: Id, s: seq<Id>, x: Id)
    ensures Pull([y] + s, x) == if y == x then Pull(s, x) else [y] + Pull(s, x)
  {
    assert ([y] + s)[0] == y && ([y] + s)[1..] == s;
  }

  lemma ConsAppend(y: Id, a: seq<Id>, b: seq<Id>)
    ensures [y] + (a + b) == ([y] + a) + b
  {
  }

  /** `$pull` works element by element: pulling from a concatenation pulls
      from each part and keeps the parts in order. */
  lemma {:induction false} PullConcat(s: seq<Id>, t: seq<Id>, x: Id)
    ensures Pull(s + t, x) == Pull(s, x) + Pull(t, x)
  {
    if s == [] {
      assert s + t == t;
    } else {
      var y, rest := s[0], s[1..];
      assert s == [y] + rest && s + t == [y] + (rest + t);
      PullConcat(rest, t, x);
      PullCons(y, rest + t, x);
      PullCons(y, rest, x);
      ConsAppend(y, Pull(rest, x), Pull(t, x));
    }
  }

  /** On one element, `$pull` drops it when it is `x` and keeps it otherwise. */
  lemma PullSingle(y: Id, x: Id)
    ensures Pull([y], x) == if y == x then [] else [y]
  {
  }

  /** The ids around a pulled occurrence stay, in their order. */
  lemma PullKeepsOrder(before: seq<Id>, after: seq<Id>, x: Id)
    requires x !in before && x !in after
    ensures Pull(before + [x] + after, x) == before + after
  {
    PullConcat(before + [x], after, x);
    PullConcat(before, [x], x);
    PullSingle(x, x);
  }

  /** Pulling a value that was just pushed onto a list without it gives the list back. */
  lemma {:induction false} PullPushed(s: seq<Id>, x: Id)
    requires x !in s
    ensures Pull(s + [x], x) == s
  {
    if s != [] {
      assert (s + [x])[1..] == s[1..] + [x];
      PullPushed(s[1..], x);
    }
  }

  /** `m` is the smallest element of `s`. */
  predicate IsLeast(s: set<nat>, m: nat)
  {
    m in s && forall y :: y in s ==> m <= y
  }

  lemma {:induction false} LeastExists(s: set<nat>)
    requires s != {}
    ensures exists m :: IsLeast(s, m)
  {
    var x :| x in s;
    if s == {x} {
      assert IsLeast(s, x);
    } else {
      var rest := s - {x};
      LeastExists(rest);
      var m :| IsLeast(rest, m);
      var low := if x < m then x else m;
      forall y | y in s
        ensures low <= y
      {
        if y != x {
          assert y in rest;
        }
      }
      assert IsLeast(s, low);
    }
  }

  /** The smallest id of a non-empty set: the first document in natural order. */
  function Least(s: set<nat>): (m: nat)
    requires s != {}
    ensures m in s
    ensures forall y :: y in s ==> m <= y
  {
    LeastExists(s);
    var m :| IsLeast(s, m);
    m
  }

  ghost predicate Increasing(r: seq<nat>)
  {
    forall i, j :: 0 <= i < j < |r| ==> r[i] < r[j]
  }

  /** A value below every element of an increasing list can go in front of it. */
  lemma ConsIncreasing(m: nat, rest: seq<nat>)
    requires Increasing(rest) && forall x :: x in rest ==> m < x
    ensures Increasing([m] + rest)
  {
    var r := [m] + rest;
    forall i, j | 0 <= i < j < |r|
      ensures r[i] < r[j]
    {
      assert r[j] == rest[j - 1] && rest[j - 1] in rest;
      if i > 0 {
        assert r[i] == rest[i - 1];
      }
    }
  }

  /** The ids of a set in natural (ascending) order. */
  function Ascending(s: set<nat>): (r: seq<nat>)
    ensures forall x :: x in r <==> x in s
    ensures |r| == |s|
    ensures Increasing(r)
    decreases |s|
  {
    if s == {} then []
    else
      var m := Least(s);
      var rest := Ascending(s - {m});
      ConsIncreasing(m, rest);
      [m] + rest
  }

  /** A list in increasing order holds each id at most once. */
  lemma {:induction false} IncreasingNoDuplicates(r: seq<nat>)
    requires Increasing(r)
    ensures NoDuplicates(r)
  {
    if r != [] {
      IncreasingNoDuplicates(r[1..]);
      assert r == [r[0]] + r[1..];
      assert r[0] !in r[1..];
    }
  }

  /** Appending an id the list does not hold keeps it free of duplicates. */
  lemma NoDuplicatesAppend(s: seq<Id>, x: Id)
    requires NoDuplicates(s) && x !in s
    ensures NoDuplicates(s + [x])
  {
    assert multiset(s + [x]) == multiset(s) + multiset{x};
  }

  /** In a list without duplicates, different positions hold different ids. */
  lemma DistinctAt(s: seq<Id>, i: nat, j: nat)
    requires NoDuplicates(s) && i < j < |s|
    ensures s[i] != s[j]
  {
    assert s == s[..j] + s[j..];
    assert s[i] in s[..j];
    assert multiset(s)[s[j]] == multiset(s[..j])[s[j]] + multiset(s[j..])[s[j]];
  }
}
