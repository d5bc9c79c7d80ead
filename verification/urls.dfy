/** A WHATWG `URL` reduced to the parts the server reads and writes: the host name,
    the path, and the decoded `searchParams` list. Parsing and serialisation are
    not modelled; a parse is an `Option<Url>` supplied by the caller. */
module Urls {
  import opened Wrappers

  type Query = seq<(string, string)>

  datatype Url = Url(host: string, path: string, query: Query)

  /** `searchParams.get(k)`: the value of the first pair named `k`. */
  function Get(q: Query, k: string): (r: Option<string>)
    ensures r.None? <==> forall i :: 0 <= i < |q| ==> q[i].0 != k
    ensures r.Some? ==> exists i :: 0 <= i < |q| && q[i] == (k, r.value) && forall j :: 0 <= j < i ==> q[j].0 != k
    decreases |q|
  {
    if q == [] then None
    else if q[0].0 == k then Some(q[0].1)
    else
      var r := Get(q[1..], k);
      assert forall i :: 1 <= i < |q| ==> q[i] == q[1..][i - 1];
      assert r.Some? ==> exists i :: 1 <= i < |q| && q[i] == (k, r.value) && forall j :: 0 <= j < i ==> q[j].0 != k by {
        if r.Some? {
          var i :| 0 <= i < |q[1..]| && q[1..][i] == (k, r.value) && forall j :: 0 <= j < i ==> q[1..][j].0 != k;
          assert q[i + 1] == (k, r.value);
          assert forall j :: 1 <= j < i + 1 ==> q[j].0 != k by {
            forall j | 1 <= j < i + 1 ensures q[j].0 != k { assert q[j] == q[1..][j - 1]; }
          }
        }
      }
      r
  }

  /** The pairs of `q` not named `k`, in order. */
  function Without(q: Query, k: string): (r: Query)
    ensures forall i :: 0 <= i < |r| ==> r[i].0 != k && r[i] in q
    decreases |q|
  {
    if q == [] then []
    else if q[0].0 == k then Without(q[1..], k)
    else [q[0]] + Without(q[1..], k)
  }

  /** `searchParams.set(k, v)`: the first pair named `k` takes the value `v` and the
      others are removed; with no such pair, `(k, v)` is appended. */
  function Set(q: Query, k: string, v: string): (r: Query)
    decreases |q|
  {
    if q == [] then [(k, v)]
    else if q[0].0 == k then [(k, v)] + Without(q[1..], k)
    else [q[0]] + Set(q[1..], k, v)
  }

  lemma {:induction false} GetWithout(q: Query, k: string, k': string)
    ensures Get(Without(q, k), k') == if k' == k then None else Get(q, k')
    decreases |q|
  {
    if q != [] {
      GetWithout(q[1..], k, k');
    }
  }

  /** After `set`, reading the key gives the new value and exactly one pair carries it;
      every other key reads as before. */
  lemma {:induction false} SetGet(q: Query, k: string, v: string, k': string)
    ensures Get(Set(q, k, v), k') == if k' == k then Some(v) else Get(q, k')
    decreases |q|
  {
    if q != [] {
      if q[0].0 == k {
        GetWithout(q[1..], k, k');
      } else {
        SetGet(q[1..], k, v, k');
      }
    }
  }

  /** The number of pairs named `k`. */
  function Count(q: Query, k: string): nat
    decreases |q|
  {
    if q == [] then 0 else (if q[0].0 == k then 1 else 0) + Count(q[1..], k)
  }

  /** `set` leaves every other key reading as before. */
  lemma SetKeeps(q: Query, k: string, v: string)
    ensures forall k' :: k' != k ==> Get(Set(q, k, v), k') == Get(q, k')
  {
    forall k' | k' != k ensures Get(Set(q, k, v), k') == Get(q, k') {
      SetGet(q, k, v, k');
    }
  }

  lemma {:induction false} CountWithout(q: Query, k: string)
    ensures Count(Without(q, k), k) == 0
    decreases |q|
  {
    if q != [] {
      CountWithout(q[1..], k);
      if q[0].0 != k {
        assert ([q[0]] + Without(q[1..], k))[1..] == Without(q[1..], k);
      }
    }
  }

  lemma {:induction false} SetUnique(q: Query, k: string, v: string)
    ensures Count(Set(q, k, v), k) == 1
    decreases |q|
  {
    if q == [] {
      assert Count([(k, v)], k) == 1 + Count([], k);
    } else if q[0].0 == k {
      CountWithout(q[1..], k);
      assert ([(k, v)] + Without(q[1..], k))[1..] == Without(q[1..], k);
    } else {
      SetUnique(q[1..], k, v);
      assert ([q[0]] + Set(q[1..], k, v))[1..] == Set(q[1..], k, v);
    }
  }

  function WithParam(u: Url, k: string, v: string): (r: Url)
    ensures r.host == u.host && r.path == u.path
  {
    u.(query := Set(u.query, k, v))
  }
}
