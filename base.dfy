/**
 * Shared vocabulary of the crawler model: optional values, results that
 * either carry a value or the Python exception that was raised, and the
 * outcome of one HTTP request.
 */
module Base {

  datatype Option<+T> = None | Some(value: T)

  /** The exception classes the crawlers can raise or catch. */
  datatype Exc =
    | KeyError        // a missing key in a decoded JSON object
    | TypeError       // indexing or iterating a value of the wrong kind, a bad call
    | AttributeError  // a method looked up on a value that lacks it, like split on a number
    | ValueError      // int() or max() on an unsuitable argument
    | IndexError      // a list index past the end
    | OSError         // a directory or file operation that the tree refuses
    | RequestError    // any exception raised by requests.get
    | RuntimeError    // the wrapper raised by the EPSS archive writer
    | OverflowError   // a date past 9999-12-31 or before 0001-01-01

  datatype Result<+T> = Ok(value: T) | Err(error: Exc)

  /**
   * What one call of requests.get yields: a response with its status code
   * and its body, or an exception (timeout, refused connection, bad URL).
   */
  datatype Outcome<+B> = Response(status: int, body: B) | Raised

  /**
   * The remote side: the outcome of the k-th request issued, counting from
   * zero over the whole life of a crawler object.
   */
  type Network<B> = nat -> Outcome<B>

  /** Concatenation regroups freely. */
  lemma Assoc<T>(x: seq<T>, y: seq<T>, z: seq<T>)
    ensures (x + y) + z == x + (y + z)
  {
  }

  /** The suffix from i is the slice up to j followed by the suffix from j. */
  lemma SuffixSplit<T>(c: seq<T>, i: nat, j: nat)
    requires i <= j <= |c|
    ensures c[i..] == c[i..j] + c[j..]
  {
  }

  /** A set that is not empty has a member. */
  lemma Inhabited<T>(s: set<T>)
    requires s != {}
    ensures exists x :: x in s
  {
    assert (forall x :: x !in s) ==> s == {};
  }

  /** Being a prefix is transitive. */
  lemma PrefixTrans<T>(a: seq<T>, b: seq<T>, c: seq<T>)
    requires a <= b && b <= c
    ensures a <= c
  {
  }

  /** step applied to each element of xs in order, starting from s: a for-loop over xs. */
  function Fold<S, X>(step: (S, X) -> S, s: S, xs: seq<X>): S
    decreases |xs|
  {
    if xs == [] then s else step(Fold(step, s, xs[..|xs| - 1]), xs[|xs| - 1])
  }

  /** One more element is one more step. */
  lemma FoldSnoc<S, X>(step: (S, X) -> S, s: S, xs: seq<X>, x: X)
    ensures Fold(step, s, xs + [x]) == step(Fold(step, s, xs), x)
  {
    assert (xs + [x])[..|xs|] == xs;
  }

  /** Folding over two runs one after the other is folding over them joined. */
  lemma {:induction false} FoldAppend<S, X>(step: (S, X) -> S, s: S, a: seq<X>, b: seq<X>)
    ensures Fold(step, s, a + b) == Fold(step, Fold(step, s, a), b)
    decreases |b|
  {
    if b == [] {
      assert a + b == a;
    } else {
      var b', x := b[..|b| - 1], b[|b| - 1];
      assert b == b' + [x];
      Assoc(a, b', [x]);
      FoldAppend(step, s, a, b');
      FoldSnoc(step, s, a + b', x);
      FoldSnoc(step, Fold(step, s, a), b', x);
    }
  }

  /** A relation that is reflexive, transitive and kept by every step holds between the start and the end of a fold. */
  lemma {:induction false} FoldKeeps<S, X>(step: (S, X) -> S, keep: (S, S) -> bool, s: S, xs: seq<X>)
    requires forall a: S :: keep(a, a)
    requires forall a: S, b: S, d: S :: keep(a, b) && keep(b, d) ==> keep(a, d)
    requires forall a: S, x: X :: keep(a, step(a, x))
    ensures keep(s, Fold(step, s, xs))
    decreases |xs|
  {
    if xs != [] {
      var m := Fold(step, s, xs[..|xs| - 1]);
      FoldKeeps(step, keep, s, xs[..|xs| - 1]);
      assert keep(m, step(m, xs[|xs| - 1]));
    }
  }

  /** When every step sets f to a value decided by the element alone, the last element decides it after a fold. */
  lemma FoldLast<S, X, T>(step: (S, X) -> S, f: S -> T, g: X -> T, s: S, xs: seq<X>)
    requires forall a: S, x: X :: f(step(a, x)) == g(x)
    ensures xs == [] ==> f(Fold(step, s, xs)) == f(s)
    ensures xs != [] ==> f(Fold(step, s, xs)) == g(xs[|xs| - 1])
  {
  }

  /** A fold that reaches a state every step leaves alone stays there to the end. */
  lemma {:induction false} FoldStops<S, X>(step: (S, X) -> S, stopped: S -> bool, s: S, xs: seq<X>, k: nat)
    requires k <= |xs|
    requires forall a: S, x: X :: stopped(a) ==> step(a, x) == a
    requires stopped(Fold(step, s, xs[..k]))
    ensures Fold(step, s, xs) == Fold(step, s, xs[..k])
    decreases |xs|
  {
    if k < |xs| {
      var front := xs[..|xs| - 1];
      assert front[..k] == xs[..k];
      FoldStops(step, stopped, s, front, k);
    } else {
      assert xs[..k] == xs;
    }
  }

  /**
   * When a step either appends its element to a log or, once stopped,
   * changes nothing, a fold that starts unstopped logs a prefix of xs after
   * what was logged before -- all of xs when it ends unstopped.
   */
  lemma {:induction false} FoldLog<S, X>(step: (S, X) -> S, log: S -> seq<X>, stopped: S -> bool, s: S, xs: seq<X>)
    requires forall a: S, x: X :: stopped(a) ==> step(a, x) == a
    requires forall a: S, x: X :: !stopped(a) ==> log(step(a, x)) == log(a) + [x]
    requires !stopped(s)
    ensures log(Fold(step, s, xs)) <= log(s) + xs
    ensures !stopped(Fold(step, s, xs)) ==> log(Fold(step, s, xs)) == log(s) + xs
    decreases |xs|
  {
    if xs != [] {
      var front, x := xs[..|xs| - 1], xs[|xs| - 1];
      var m := Fold(step, s, front);
      FoldLog(step, log, stopped, s, front);
      assert xs == front + [x];
      Assoc(log(s), front, [x]);
      if stopped(m) {
        PrefixTrans(log(m), log(s) + front, log(s) + xs);
      }
    }
  }

  /** b extends a, and every entry it adds is v. */
  ghost predicate ExtendsWith<T>(a: seq<T>, b: seq<T>, v: T)
  {
    a <= b && forall k :: |a| <= k < |b| ==> b[k] == v
  }

  lemma ExtendsWithTrans<T>(a: seq<T>, b: seq<T>, d: seq<T>, v: T)
    requires ExtendsWith(a, b, v) && ExtendsWith(b, d, v)
    ensures ExtendsWith(a, d, v)
  {
    assert a <= d;
  }
}
