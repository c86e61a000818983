/**
 * Records of the flat JSON document: a stored user or employee is a JSON
 * object whose values are strings, modelled as a map from property name to
 * value. A property that is absent reads as JavaScript `undefined`.
 */
module Records {

  datatype Option<T> = None | Some(value: T)

  /** What a route handler answers: a payload, or an HTTP status with its message. */
  datatype Outcome<T> = Ok(value: T) | Err(status: nat, message: string)

  type Record = map<string, string>

  /** Property read `r.key`: None stands for `undefined`. */
  function Field(r: Record, key: string): Option<string>
  {
    if key in r then Some(r[key]) else None
  }

  /** JavaScript truthiness of an optional string: `undefined` and "" are falsy. */
  predicate Truthy(v: Option<string>)
  {
    v.Some? && v.value != ""
  }

  /**
   * `a.key === b.key` where both sides are read from JSON objects: two
   * `undefined` values are strictly equal, so two records that both lack the
   * key agree on it.
   */
  predicate SameField(a: Record, b: Record, key: string)
  {
    Field(a, key) == Field(b, key)
  }

  /**
   * `r.key === param` where `param` comes from `searchParams.get`, which
   * yields `null` for a missing parameter; `null` equals no stored string.
   */
  predicate QueryMatch(r: Record, key: string, param: Option<string>)
  {
    param.Some? && Field(r, key) == param
  }

  /** Object spread `{ ...base, ...updates }`: a shallow merge. */
  function Merge(base: Record, updates: Record): (r: Record)
    ensures forall k :: Field(r, k) == if k in updates then Field(updates, k) else Field(base, k)
  {
    base + updates
  }

  /**
   * The object without one property: rest destructuring `{ key, ...rest }`,
   * or a property set to `undefined`, which JSON serialisation drops.
   */
  function Without(r: Record, key: string): (res: Record)
    ensures Field(res, key) == None
    ensures forall k :: k != key ==> Field(res, k) == Field(r, k)
  {
    r - {key}
  }

  /** The object with `key` assigned `v`, where assigning `undefined` drops the key. */
  function Assign(r: Record, key: string, v: Option<string>): (res: Record)
    ensures Field(res, key) == v
    ensures forall k :: k != key ==> Field(res, k) == Field(r, k)
  {
    match v
    case Some(s) => r[key := s]
    case None => Without(r, key)
  }

  /** `Array.prototype.findIndex`: the first position whose element satisfies `p`. */
  function FindIndex<T>(s: seq<T>, p: T -> bool): (r: Option<nat>)
    ensures r.Some? ==> r.value < |s| && p(s[r.value])
    ensures r.Some? ==> forall j :: 0 <= j < r.value ==> !p(s[j])
    ensures r.None? <==> forall j :: 0 <= j < |s| ==> !p(s[j])
  {
    if |s| == 0 then None
    else if p(s[0]) then Some(0)
    else match FindIndex(s[1..], p)
      case None => None
      case Some(i) => Some(i + 1)
  }

  /** `sub` can be obtained from `s` by deleting elements, keeping the order of the rest. */
  ghost predicate IsSubsequence<T>(sub: seq<T>, s: seq<T>)
    decreases |s|
  {
    if sub == [] then true
    else if s == [] then false
    else if sub[0] == s[0] then IsSubsequence(sub[1..], s[1..])
    else IsSubsequence(sub, s[1..])
  }

  /** `Array.prototype.filter`. */
  function Filter<T(!new)>(s: seq<T>, p: T -> bool): (r: seq<T>)
    ensures IsSubsequence(r, s)
    ensures forall x :: multiset(r)[x] == if p(x) then multiset(s)[x] else 0
  {
    if |s| == 0 then []
    else
      var rest := Filter(s[1..], p);
      assert s == [s[0]] + s[1..];
      if p(s[0]) then [s[0]] + rest else rest
  }

  /** An element survives the filter iff it occurs in the input and satisfies the predicate. */
  lemma FilterMembers<T(!new)>(s: seq<T>, p: T -> bool)
    ensures forall x :: x in Filter(s, p) <==> x in s && p(x)
  {
    var r := Filter(s, p);
    forall x ensures x in r <==> x in s && p(x) {
      assert x in r <==> multiset(r)[x] > 0;
      assert x in s <==> multiset(s)[x] > 0;
    }
  }

  /** The filter removes nothing exactly when every element satisfies the predicate. */
  lemma {:induction false} FilterKeepsAll<T(!new)>(s: seq<T>, p: T -> bool)
    ensures |Filter(s, p)| <= |s|
    ensures |Filter(s, p)| == |s| <==> forall i :: 0 <= i < |s| ==> p(s[i])
  {
    if |s| > 0 {
      FilterKeepsAll(s[1..], p);
      AllOfTail(s, p);
    }
  }

  /** A filter every element passes returns its input. */
  lemma {:induction false} FilterKeepsEvery<T(!new)>(s: seq<T>, p: T -> bool)
    ensures (forall i :: 0 <= i < |s| ==> p(s[i])) ==> Filter(s, p) == s
  {
    if |s| > 0 {
      FilterKeepsEvery(s[1..], p);
      AllOfTail(s, p);
    }
  }

  lemma AllOfTail<T>(s: seq<T>, p: T -> bool)
    requires |s| > 0
    ensures (forall i :: 0 <= i < |s| ==> p(s[i])) <==> p(s[0]) && forall i :: 0 <= i < |s[1..]| ==> p(s[1..][i])
  {
    if p(s[0]) && forall i :: 0 <= i < |s[1..]| ==> p(s[1..][i]) {
      forall i | 0 <= i < |s| ensures p(s[i]) {
        if i > 0 { assert s[i] == s[1..][i - 1]; }
      }
    }
  }

  /** Filtering with two predicates that agree on every element gives the same result. */
  lemma {:induction false} FilterAgree<T(!new)>(s: seq<T>, p: T -> bool, q: T -> bool)
    requires forall i :: 0 <= i < |s| ==> p(s[i]) == q(s[i])
    ensures Filter(s, p) == Filter(s, q)
  {
    if |s| > 0 {
      FilterAgree(s[1..], p, q);
    }
  }

  /** Every element of a subsequence is an element of the sequence. */
  lemma {:induction false} SubsequenceMembers<T>(sub: seq<T>, s: seq<T>)
    requires IsSubsequence(sub, s)
    ensures forall x :: x in sub ==> x in s
    decreases |s|
  {
    if sub != [] && s != [] {
      if sub[0] == s[0] {
        SubsequenceMembers(sub[1..], s[1..]);
        assert forall x :: x in sub ==> x == sub[0] || x in sub[1..];
      } else {
        SubsequenceMembers(sub, s[1..]);
      }
    }
  }

  /**
   * A relation that holds between every earlier and later element of a
   * sequence still holds in every subsequence of it.
   */
  lemma {:induction false} SubsequencePairwise<T>(sub: seq<T>, s: seq<T>, rel: (T, T) -> bool)
    requires IsSubsequence(sub, s)
    requires forall i, j :: 0 <= i < j < |s| ==> rel(s[i], s[j])
    ensures forall i, j :: 0 <= i < j < |sub| ==> rel(sub[i], sub[j])
    decreases |s|
  {
    if sub != [] && s != [] {
      assert forall i, j :: 0 <= i < j < |s[1..]| ==> s[1..][i] == s[i + 1] && s[1..][j] == s[j + 1];
      if sub[0] == s[0] {
        SubsequencePairwise(sub[1..], s[1..], rel);
        SubsequenceMembers(sub[1..], s[1..]);
        forall i, j | 0 <= i < j < |sub| ensures rel(sub[i], sub[j]) {
          if i == 0 {
            assert sub[j] == sub[1..][j - 1];
            assert sub[j] in s[1..];
            var k :| 0 <= k < |s[1..]| && s[1..][k] == sub[j];
            assert rel(s[0], s[k + 1]);
          } else {
            assert sub[i] == sub[1..][i - 1] && sub[j] == sub[1..][j - 1];
          }
        }
      } else {
        SubsequencePairwise(sub, s[1..], rel);
      }
    }
  }
}
