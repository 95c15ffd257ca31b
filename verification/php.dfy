/** The handful of PHP runtime behaviours the adapter relies on, stated over
    plain Dafny values: arrays with string keys as ordered association lists,
    `$a[$k] = $v`, `array_merge`, `empty()` on strings, `trim()` and
    `implode()`. */
module Php {
  import opened Results

  /** A PHP array whose keys are strings, in insertion order. */
  type Assoc<V> = seq<(string, V)>

  function Keys<V>(a: Assoc<V>): seq<string>
  {
    seq(|a|, i requires 0 <= i < |a| => a[i].0)
  }

  function Values<V>(a: Assoc<V>): seq<V>
  {
    seq(|a|, i requires 0 <= i < |a| => a[i].1)
  }

  /** `array_key_exists($k, $a)`. */
  predicate HasKey<V>(a: Assoc<V>, k: string)
  {
    |a| > 0 && (a[0].0 == k || HasKey(a[1..], k))
  }

  /** Every PHP array has this shape: no key occurs twice. */
  predicate DistinctKeys<V>(a: Assoc<V>)
  {
    |a| == 0 || (!HasKey(a[1..], a[0].0) && DistinctKeys(a[1..]))
  }

  /** `$a[$k]`, with `None` for a missing key. */
  function Lookup<V>(a: Assoc<V>, k: string): (r: Option<V>)
    ensures r.None? <==> !HasKey(a, k)
  {
    if |a| == 0 then None
    else if a[0].0 == k then Some(a[0].1)
    else Lookup(a[1..], k)
  }

  /** A key occurs in the array exactly when some entry carries it. */
  lemma {:induction false} HasKeyAt<V>(a: Assoc<V>, k: string)
    ensures HasKey(a, k) <==> exists i :: 0 <= i < |a| && a[i].0 == k
  {
    if |a| > 0 {
      HasKeyAt(a[1..], k);
      if HasKey(a[1..], k) {
        var i :| 0 <= i < |a[1..]| && a[1..][i].0 == k;
        assert a[i + 1].0 == k;
      }
      assert forall i :: 1 <= i < |a| ==> a[i] == a[1..][i - 1];
    }
  }

  /** In an array with distinct keys, looking up the key of any entry finds
      that entry's value. */
  lemma {:induction false} LookupEntry<V>(a: Assoc<V>, i: nat)
    requires DistinctKeys(a) && i < |a|
    ensures Lookup(a, a[i].0) == Some(a[i].1)
  {
    if i > 0 {
      LookupEntry(a[1..], i - 1);
      HasKeyAt(a[1..], a[0].0);
      assert a[1..][i - 1] == a[i];
    }
  }

  /** `$a[$k] = $v`: an existing key keeps its position and takes the new
      value; a new key is appended at the end. */
  function Set<V>(a: Assoc<V>, k: string, v: V): (r: Assoc<V>)
    ensures Lookup(r, k) == Some(v)
    ensures forall k' :: k' != k ==> Lookup(r, k') == Lookup(a, k')
    ensures forall k' :: HasKey(r, k') <==> HasKey(a, k') || k' == k
    ensures !HasKey(a, k) ==> r == a + [(k, v)]
    ensures HasKey(a, k) ==> |r| == |a|
    ensures |a| <= |r| && forall i :: 0 <= i < |a| ==> r[i].0 == a[i].0
    ensures DistinctKeys(a) ==> DistinctKeys(r)
  {
    if |a| == 0 then [(k, v)]
    else if a[0].0 == k then [(k, v)] + a[1..]
    else
      var rest := Set(a[1..], k, v);
      var r := [a[0]] + rest;
      assert r[1..] == rest;
      r
  }

  /** `array_merge($a, $b)` for string keys: the entries of `$a` in order,
      each overwritten in place by `$b`'s value for the same key, followed by
      `$b`'s remaining entries in order. */
  function Merge<V>(a: Assoc<V>, b: Assoc<V>): (r: Assoc<V>)
    requires DistinctKeys(b)
    ensures forall k :: Lookup(r, k) == (if HasKey(b, k) then Lookup(b, k) else Lookup(a, k))
    ensures forall k :: HasKey(r, k) <==> HasKey(a, k) || HasKey(b, k)
    ensures |a| <= |r| && forall i :: 0 <= i < |a| ==> r[i].0 == a[i].0
    ensures DistinctKeys(a) ==> DistinctKeys(r)
    decreases |b|
  {
    if |b| == 0 then a
    else Merge(Set(a, b[0].0, b[0].1), b[1..])
  }

  /** Looking a key up in two arrays laid end to end finds it in the first
      when it is there, and in the second otherwise. */
  lemma {:induction false} LookupConcat<V>(a: Assoc<V>, b: Assoc<V>, k: string)
    ensures HasKey(a + b, k) <==> HasKey(a, k) || HasKey(b, k)
    ensures Lookup(a + b, k) == if HasKey(a, k) then Lookup(a, k) else Lookup(b, k)
  {
    if |a| > 0 {
      assert (a + b)[1..] == a[1..] + b;
      LookupConcat(a[1..], b, k);
    } else {
      assert a + b == b;
    }
  }

  /** Two arrays with distinct keys and no key in common, laid end to end,
      still have distinct keys. */
  lemma {:induction false} DistinctKeysConcat<V>(a: Assoc<V>, b: Assoc<V>)
    requires DistinctKeys(a) && DistinctKeys(b)
    requires forall k :: HasKey(a, k) ==> !HasKey(b, k)
    ensures DistinctKeys(a + b)
  {
    if |a| > 0 {
      assert (a + b)[1..] == a[1..] + b;
      DistinctKeysConcat(a[1..], b);
      LookupConcat(a[1..], b, a[0].0);
    } else {
      assert a + b == b;
    }
  }

  /** Merging one more entry is merging the rest, then assigning that entry. */
  lemma {:induction false} MergeSnoc<V>(a: Assoc<V>, b: Assoc<V>, k: string, v: V)
    requires DistinctKeys(b + [(k, v)])
    ensures DistinctKeys(b)
    ensures Merge(a, b + [(k, v)]) == Set(Merge(a, b), k, v)
    decreases |b|
  {
    DistinctKeysPrefix(b + [(k, v)], |b|);
    assert (b + [(k, v)])[..|b|] == b;
    if |b| > 0 {
      assert (b + [(k, v)])[1..] == b[1..] + [(k, v)];
      MergeSnoc(Set(a, b[0].0, b[0].1), b[1..], k, v);
    }
  }

  /** Merging the first `n + 1` entries of `b` is merging the first `n`,
      then assigning entry `n`. */
  lemma MergePrefixStep<V>(a: Assoc<V>, b: Assoc<V>, n: nat)
    requires DistinctKeys(b) && n < |b|
    ensures DistinctKeys(b[..n]) && DistinctKeys(b[..n + 1])
    ensures Merge(a, b[..n + 1]) == Set(Merge(a, b[..n]), b[n].0, b[n].1)
  {
    DistinctKeysPrefix(b, n + 1);
    assert b[..n + 1] == b[..n] + [(b[n].0, b[n].1)];
    MergeSnoc(a, b[..n], b[n].0, b[n].1);
  }

  /** After merging the first `n` entries of `b`, each of them is found with
      its own value. */
  lemma MergePrefixEntries<V>(a: Assoc<V>, b: Assoc<V>, n: nat)
    requires DistinctKeys(b) && n <= |b|
    ensures DistinctKeys(b[..n])
    ensures forall i :: 0 <= i < n ==> Lookup(Merge(a, b[..n]), b[i].0) == Some(b[i].1)
  {
    DistinctKeysPrefix(b, n);
    forall i | 0 <= i < n ensures Lookup(Merge(a, b[..n]), b[i].0) == Some(b[i].1) {
      assert b[..n][i] == b[i];
      LookupEntry(b[..n], i);
    }
  }

  /** Every prefix of an array with distinct keys has distinct keys. */
  lemma {:induction false} DistinctKeysPrefix<V>(a: Assoc<V>, n: nat)
    requires DistinctKeys(a) && n <= |a|
    ensures DistinctKeys(a[..n])
  {
    if n > 0 {
      DistinctKeysPrefix(a[1..], n - 1);
      assert a[..n][1..] == a[1..][..n - 1];
      HasKeyAt(a[1..], a[0].0);
      HasKeyAt(a[1..][..n - 1], a[0].0);
    }
  }

  /** PHP's `empty()` on a string: the empty string and `"0"`. */
  predicate Empty(s: string)
  {
    s == "" || s == "0"
  }

  /** The characters `trim()` strips by default: space, tab, line feed,
      carriage return, NUL and vertical tab. */
  predicate IsTrimChar(c: char)
  {
    c == ' ' || c == '\t' || c == '\n' || c == '\r' || c as int == 0 || c as int == 0x0B
  }

  /** `ltrim()`: the suffix left after dropping the leading trim characters. */
  function TrimLeft(s: string): (r: string)
    ensures |r| <= |s| && r == s[|s| - |r|..]
    ensures forall i :: 0 <= i < |s| - |r| ==> IsTrimChar(s[i])
    ensures r == [] || !IsTrimChar(r[0])
  {
    if |s| > 0 && IsTrimChar(s[0]) then TrimLeft(s[1..]) else s
  }

  /** `rtrim()`: the prefix left after dropping the trailing trim characters. */
  function TrimRight(s: string): (r: string)
    ensures |r| <= |s| && r == s[..|r|]
    ensures forall i :: |r| <= i < |s| ==> IsTrimChar(s[i])
    ensures r == [] || !IsTrimChar(r[|r| - 1])
  {
    if |s| > 0 && IsTrimChar(s[|s| - 1]) then TrimRight(s[..|s| - 1]) else s
  }

  /** `r` is the slice of `s` starting at `i`, and only trim characters lie
      outside it. */
  predicate SliceWithin(s: string, r: string, i: int)
  {
    && 0 <= i <= |s| - |r| && r == s[i..i + |r|]
    && (forall j :: 0 <= j < i ==> IsTrimChar(s[j]))
    && (forall j :: i + |r| <= j < |s| ==> IsTrimChar(s[j]))
  }

  /** `trim()`: the slice of `s` between its leading and its trailing run of
      trim characters. */
  function Trim(s: string): (r: string)
    ensures exists i :: SliceWithin(s, r, i)
    ensures r == [] || (!IsTrimChar(r[0]) && !IsTrimChar(r[|r| - 1]))
  {
    var r := TrimRight(TrimLeft(s));
    TrimShape(s, r);
    r
  }

  /** What `trim()` leaves: a slice with only trim characters outside it and
      none at either end. */
  lemma TrimShape(s: string, r: string)
    requires r == TrimRight(TrimLeft(s))
    ensures exists i :: SliceWithin(s, r, i)
    ensures r == [] || (!IsTrimChar(r[0]) && !IsTrimChar(r[|r| - 1]))
  {
    TrimSlice(s);
    TrimEnds(s);
  }

  /** Dropping the trailing run after the leading one leaves a slice with
      only trim characters outside it. */
  lemma TrimSlice(s: string)
    ensures SliceWithin(s, TrimRight(TrimLeft(s)), |s| - |TrimLeft(s)|)
  {
    var l := TrimLeft(s);
    SliceOfSuffix(s, l, TrimRight(l), |s| - |l|);
  }

  /** Dropping the trailing run after the leading one leaves no trim
      character at either end. */
  lemma TrimEnds(s: string)
    ensures var r := TrimRight(TrimLeft(s));
      r == [] || (!IsTrimChar(r[0]) && !IsTrimChar(r[|r| - 1]))
  {
    var l := TrimLeft(s);
    var r := TrimRight(l);
    assert r == [] || r[0] == l[0];
  }

  /** A prefix of a suffix of `s` is a slice of `s`; what lies outside it in
      `s` is what lies outside the suffix and outside the prefix. */
  lemma SliceOfSuffix(s: string, l: string, r: string, i: int)
    requires 0 <= i <= |s| && l == s[i..] && |r| <= |l| && r == l[..|r|]
    requires forall j :: 0 <= j < i ==> IsTrimChar(s[j])
    requires forall j :: |r| <= j < |l| ==> IsTrimChar(l[j])
    ensures SliceWithin(s, r, i)
  {
    assert forall j :: i + |r| <= j < |s| ==> s[j] == l[j - i];
  }

  /** `trim()` strips everything exactly when every character is a trim
      character. */
  lemma TrimEmptyIff(s: string)
    ensures Trim(s) == "" <==> forall i :: 0 <= i < |s| ==> IsTrimChar(s[i])
  {
    if Trim(s) != "" {
      var r := Trim(s);
      var i :| SliceWithin(s, r, i);
      assert s[i] == r[0];
    }
  }

  /** Trimming twice is trimming once. */
  lemma TrimIdempotent(s: string)
    ensures Trim(Trim(s)) == Trim(s)
  {
    var r := Trim(s);
    assert TrimLeft(r) == r;
    assert TrimRight(r) == r;
  }

  /** `implode($sep, $parts)`. */
  function Join(sep: string, parts: seq<string>): (r: string)
    ensures |parts| == 0 ==> r == ""
    ensures |parts| == 1 ==> r == parts[0]
  {
    if |parts| == 0 then ""
    else if |parts| == 1 then parts[0]
    else parts[0] + sep + Join(sep, parts[1..])
  }

  /** Joining two non-empty lists is joining each and putting one separator
      between the results. */
  lemma {:induction false} JoinAppend(sep: string, xs: seq<string>, ys: seq<string>)
    requires |xs| > 0 && |ys| > 0
    ensures Join(sep, xs + ys) == Join(sep, xs) + sep + Join(sep, ys)
  {
    if |xs| == 1 {
      assert (xs + ys)[1..] == ys;
    } else {
      assert (xs + ys)[1..] == xs[1..] + ys;
      JoinAppend(sep, xs[1..], ys);
    }
  }

  /** The length of `implode()`: all the parts plus one separator between
      each neighbouring pair. */
  lemma {:induction false} JoinLength(sep: string, parts: seq<string>)
    requires |parts| > 0
    ensures |Join(sep, parts)| == TotalLength(parts) + (|parts| - 1) * |sep|
  {
    if |parts| > 1 {
      JoinLength(sep, parts[1..]);
    }
  }

  function TotalLength(parts: seq<string>): nat
  {
    if |parts| == 0 then 0 else |parts[0]| + TotalLength(parts[1..])
  }
}
