/** Browser-side primitives shared by every component: optional values,
    the outcome of a `fetch`, and event-listener registration. */
module Web {

  datatype Option<+T> = None | Some(value: T)

  /** The outcome of `fetch(url)`: either a response arrived (with its `ok`
      flag, true for a 2xx status, and the text of its body) or the promise
      was rejected (network failure, or `text()` failing). */
  datatype Response = Received(ok: bool, body: string) | NetworkError {
    /** Code that throws on `!response.ok` and reads the body otherwise. */
    predicate Succeeded() { Received? && ok }
  }

  /** The index of the first element satisfying `f`, as `Array.prototype.find`
      and `getElementById` pick the first match in document order. */
  function FindFirst<T>(s: seq<T>, f: T -> bool): (r: Option<nat>)
    ensures r.None? <==> forall i :: 0 <= i < |s| ==> !f(s[i])
    ensures r.Some? ==> r.value < |s| && f(s[r.value])
    ensures r.Some? ==> forall i :: 0 <= i < r.value ==> !f(s[i])
  {
    if |s| == 0 then None
    else if f(s[0]) then Some(0)
    else
      var r := FindFirst(s[1..], f);
      if r.None? then None else Some(r.value + 1)
  }

  /** The first match depends only on which positions match. */
  lemma FindFirstSame<T>(a: seq<T>, b: seq<T>, f: T -> bool)
    requires |a| == |b| && forall i :: 0 <= i < |a| ==> (f(a[i]) <==> f(b[i]))
    ensures FindFirst(a, f) == FindFirst(b, f)
  {
    var x, y := FindFirst(a, f), FindFirst(b, f);
    if x.Some? && y.Some? {
      assert !(x.value < y.value) && !(y.value < x.value);
    }
  }

  /** A registered listener, identified by the name of its handler function. */
  type Handler = string

  /** Number of occurrences of `h` in a listener list. */
  function Occurrences(ls: seq<Handler>, h: Handler): nat
  {
    if |ls| == 0 then 0
    else (if ls[0] == h then 1 else 0) + Occurrences(ls[1..], h)
  }

  /** The list with every occurrence of `h` removed, order kept. */
  function Without(ls: seq<Handler>, h: Handler): (r: seq<Handler>)
    ensures Occurrences(r, h) == 0
    ensures forall g :: g != h ==> Occurrences(r, g) == Occurrences(ls, g)
    ensures |r| <= |ls|
  {
    if |ls| == 0 then []
    else if ls[0] == h then Without(ls[1..], h)
    else [ls[0]] + Without(ls[1..], h)
  }

  lemma {:induction false} OccurrencesAppend(a: seq<Handler>, b: seq<Handler>, h: Handler)
    ensures Occurrences(a + b, h) == Occurrences(a, h) + Occurrences(b, h)
  {
    if |a| == 0 {
      assert a + b == b;
    } else {
      assert (a + b)[1..] == a[1..] + b;
      OccurrencesAppend(a[1..], b, h);
    }
  }

  /** `removeEventListener(type, h)` followed by `addEventListener(type, h)`:
      the registration idiom of `initializeContentLoader` and
      `initializeContentSwitching`. */
  function Register(ls: seq<Handler>, h: Handler): (r: seq<Handler>)
    ensures Occurrences(r, h) == 1
    ensures forall g :: g != h ==> Occurrences(r, g) == Occurrences(ls, g)
  {
    var rest := Without(ls, h);
    OccurrencesAppend(rest, [h], h);
    forall g | g != h
      ensures Occurrences(rest + [h], g) == Occurrences(ls, g)
    {
      OccurrencesAppend(rest, [h], g);
      assert Occurrences([h], g) == 0 by {
        assert [h][1..] == [];
      }
    }
    rest + [h]
  }

  /** Registering the same handler again changes nothing: however many times
      a fragment re-runs its initialisation, exactly one handler stays. */
  lemma {:induction false} RegisterIdempotent(ls: seq<Handler>, h: Handler)
    ensures Register(Register(ls, h), h) == Register(ls, h)
  {
    WithoutAbsent(Without(ls, h), h);
    var once := Register(ls, h);
    assert once == Without(ls, h) + [h];
    WithoutSnoc(Without(ls, h), h);
  }

  lemma {:induction false} WithoutAbsent(ls: seq<Handler>, h: Handler)
    requires Occurrences(ls, h) == 0
    ensures Without(ls, h) == ls
  {
    if |ls| > 0 {
      WithoutAbsent(ls[1..], h);
    }
  }

  lemma {:induction false} WithoutSnoc(ls: seq<Handler>, h: Handler)
    requires Occurrences(ls, h) == 0
    ensures Without(ls + [h], h) == ls
  {
    if |ls| == 0 {
      assert ls + [h] == [h];
    } else {
      assert (ls + [h])[1..] == ls[1..] + [h];
      WithoutSnoc(ls[1..], h);
    }
  }
}
