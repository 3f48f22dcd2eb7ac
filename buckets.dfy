/**
 * The two edits `localBus` makes to a bucket array, stated on sequences:
 * `subscribe` splices a new entry in after the last member whose priority is
 * at most its own (or unshifts it), and `unsubscribe` splices out the first
 * identical entry. The bus methods are proved against these functions; the
 * lemmas here say what the edits keep.
 */
module Buckets {
  import opened Values

  /**
   * Where `subscribe` puts an entry of priority `p`, scanning the priorities
   * `ps` from the end: just after the last member with priority `<= p`, or at
   * the front when there is none.
   */
  function InsertionIndex(ps: seq<int>, p: int): (k: nat)
    ensures k <= |ps|
    ensures k == 0 || ps[k - 1] <= p
    ensures forall j :: k <= j < |ps| ==> ps[j] > p
  {
    if ps == [] then 0
    else if ps[|ps| - 1] <= p then |ps|
    else InsertionIndex(ps[..|ps| - 1], p)
  }

  /** The three facts above pin the position down. */
  lemma InsertionIndexUnique(ps: seq<int>, p: int, k: nat)
    requires k <= |ps|
    requires k == 0 || ps[k - 1] <= p
    requires forall j :: k <= j < |ps| ==> ps[j] > p
    ensures k == InsertionIndex(ps, p)
  {
  }

  function InsertAt<T>(b: seq<T>, k: nat, x: T): seq<T>
    requires k <= |b|
  {
    b[..k] + [x] + b[k..]
  }

  /**
   * In a bucket sorted by non-decreasing priority the new entry lands after
   * every member of equal or lower priority and before every higher one, and
   * the bucket stays sorted.
   */
  lemma InsertKeepsSorted(ps: seq<int>, p: int)
    requires Sorted(ps)
    ensures var k := InsertionIndex(ps, p);
      && (forall j :: 0 <= j < k ==> ps[j] <= p)
      && (forall j :: k <= j < |ps| ==> p < ps[j])
      && Sorted(InsertAt(ps, k, p))
  {
    var k := InsertionIndex(ps, p);
    var r := InsertAt(ps, k, p);
    assert forall j :: 0 <= j < k ==> ps[j] <= ps[k - 1];
    forall i, j | 0 <= i < j < |r| ensures r[i] <= r[j] {
      assert i < k ==> r[i] == ps[i];
      assert i > k ==> r[i] == ps[i - 1];
      assert j < k ==> r[j] == ps[j];
      assert j > k ==> r[j] == ps[j - 1];
    }
  }

  lemma InsertNoDup<T>(b: seq<T>, k: nat, x: T)
    requires k <= |b| && NoDup(b) && x !in b
    ensures NoDup(InsertAt(b, k, x))
    ensures multiset(InsertAt(b, k, x)) == multiset(b) + multiset{x}
    ensures forall y :: y in InsertAt(b, k, x) ==> y in b || y == x
  {
    var r := InsertAt(b, k, x);
    forall i, j | 0 <= i < j < |r| ensures r[i] != r[j] {
      assert i < k ==> r[i] == b[i];
      assert i > k ==> r[i] == b[i - 1];
      assert j < k ==> r[j] == b[j];
      assert j > k ==> r[j] == b[j - 1];
    }
    assert b == b[..k] + b[k..];
  }

  /** `unsubscribe`'s edit: the first entry identical to `x` is spliced out. */
  function RemoveFirst<T(==)>(b: seq<T>, x: T): seq<T> {
    if b == [] then []
    else if b[0] == x then b[1..]
    else [b[0]] + RemoveFirst(b[1..], x)
  }

  function IndexOf<T(==)>(b: seq<T>, x: T): (i: nat)
    requires x in b
    ensures i < |b| && b[i] == x
    ensures forall j :: 0 <= j < i ==> b[j] != x
  {
    if b[0] == x then 0 else 1 + IndexOf(b[1..], x)
  }

  /** Removing an absent entry changes nothing. */
  lemma {:induction false} RemoveFirstAbsent<T>(b: seq<T>, x: T)
    requires x !in b
    ensures RemoveFirst(b, x) == b
  {
    if b != [] {
      assert x !in b[1..];
      RemoveFirstAbsent(b[1..], x);
    }
  }

  /**
   * Exactly the first occurrence goes and every other entry keeps its
   * relative order.
   */
  lemma {:induction false} RemoveFirstAt<T>(b: seq<T>, x: T)
    requires x in b
    ensures RemoveFirst(b, x) == b[..IndexOf(b, x)] + b[IndexOf(b, x) + 1..]
  {
    if b[0] != x {
      var i := IndexOf(b, x);
      var t := b[1..];
      assert x in t;
      RemoveFirstAt(t, x);
      assert IndexOf(t, x) == i - 1;
      calc {
        RemoveFirst(b, x);
        [b[0]] + RemoveFirst(t, x);
        [b[0]] + (t[..i - 1] + t[i..]);
        { assert [b[0]] + t[..i - 1] == b[..i]; assert t[i..] == b[i + 1..]; }
        b[..i] + b[i + 1..];
      }
    }
  }

  /** One occurrence of `x` fewer, nothing else added or lost. */
  lemma {:induction false} RemoveFirstMultiset<T>(b: seq<T>, x: T)
    ensures multiset(RemoveFirst(b, x)) == multiset(b) - multiset{x}
  {
    if x in b {
      RemoveFirstAt(b, x);
      var i := IndexOf(b, x);
      var front, back := b[..i], b[i + 1..];
      var rest := multiset(front) + multiset(back);
      assert b == (front + [x]) + back;
      assert multiset(b) == multiset(front + [x]) + multiset(back);
      assert multiset(b) == rest + multiset{x};
      assert multiset(RemoveFirst(b, x)) == rest;
    } else {
      assert multiset(b)[x] == 0;
      RemoveFirstAbsent(b, x);
    }
  }

  /** Splicing out one entry keeps a sorted bucket sorted. */
  lemma RemoveKeepsSorted(ps: seq<int>, i: nat)
    requires Sorted(ps) && i < |ps|
    ensures Sorted(ps[..i] + ps[i + 1..])
  {
    var r := ps[..i] + ps[i + 1..];
    forall a, c | 0 <= a < c < |r| ensures r[a] <= r[c] {
      assert a < i ==> r[a] == ps[a];
      assert a >= i ==> r[a] == ps[a + 1];
      assert c < i ==> r[c] == ps[c];
      assert c >= i ==> r[c] == ps[c + 1];
    }
  }

  /** A bucket without repeats loses the entry altogether. */
  lemma RemoveFirstNoDup<T>(b: seq<T>, x: T)
    requires NoDup(b)
    ensures NoDup(RemoveFirst(b, x)) && x !in RemoveFirst(b, x)
  {
    if x !in b {
      RemoveFirstAbsent(b, x);
    } else {
      RemoveFirstAt(b, x);
      var i := IndexOf(b, x);
      var r := RemoveFirst(b, x);
      forall a, c | 0 <= a < c < |r| ensures r[a] != r[c] {
        assert a < i ==> r[a] == b[a];
        assert a >= i ==> r[a] == b[a + 1];
        assert c < i ==> r[c] == b[c];
        assert c >= i ==> r[c] == b[c + 1];
      }
      forall a | 0 <= a < |r| ensures r[a] != x {
        assert a < i ==> r[a] == b[a];
        assert a >= i ==> r[a] == b[a + 1];
      }
    }
  }

  /** The entry sits right after a prefix that does not hold it: the splice joins the two sides. */
  lemma RemoveFirstJoin<T>(front: seq<T>, x: T, back: seq<T>)
    requires x !in front
    ensures RemoveFirst(front + [x] + back, x) == front + back
  {
    var b := front + [x] + back;
    assert b[|front|] == x;
    RemoveFirstAt(b, x);
    var i := IndexOf(b, x);
    assert forall j :: 0 <= j < |front| ==> b[j] != x by {
      assert forall j :: 0 <= j < |front| ==> b[j] == front[j];
    }
    assert b[..i] == front;
    assert b[i + 1..] == back;
  }
}
