/** The header and trailer names of a response: handler/nethttp/host.go keeps both
    in one map, trailers under a prefix, and lists each kind in sorted order. */
module HeaderNames {
  import opened Abi
  import opened Exchange

  /** http.TrailerPrefix */
  const PREFIX: bytes := Ascii("Trailer:")

  predicate HasPrefix(name: bytes) {
    |PREFIX| <= |name| && name[..|PREFIX|] == PREFIX
  }

  lemma StripPrefix(n: bytes)
    requires HasPrefix(n)
    ensures PREFIX + n[|PREFIX|..] == n
    ensures forall t: bytes :: PREFIX + t == n ==> t == n[|PREFIX|..]
  {
    forall t: bytes | PREFIX + t == n ensures t == n[|PREFIX|..] {
      assert (PREFIX + t)[|PREFIX|..] == t;
    }
  }

  // ---- Go's order on strings ----

  predicate Below(a: bytes, b: bytes)
    decreases |a|
  {
    b != [] && (a == [] || a[0] < b[0] || (a[0] == b[0] && Below(a[1..], b[1..])))
  }

  /** The order is the lexicographic one: after a common part either the first text ends
      or it has the smaller byte. */
  lemma {:induction false} BelowIsLexicographic(a: bytes, b: bytes)
    ensures Below(a, b) <==> exists k :: 0 <= k <= |a| && DiffersAt(a, b, k)
    decreases |a|
  {
    if a != [] && b != [] && a[0] == b[0] {
      BelowIsLexicographic(a[1..], b[1..]);
      forall k | 0 <= k < |a| ensures DiffersAt(a[1..], b[1..], k) <==> DiffersAt(a, b, k + 1) {
        if k + 1 < |b| {
          assert a[..k + 1] == [a[0]] + a[1..][..k] && b[..k + 1] == [b[0]] + b[1..][..k];
          assert a[..k + 1][1..] == a[1..][..k] && b[..k + 1][1..] == b[1..][..k];
        }
      }
      if k: nat :| 0 <= k <= |a[1..]| && DiffersAt(a[1..], b[1..], k) {
        assert DiffersAt(a, b, k + 1);
      }
      if k: nat :| 0 <= k <= |a| && DiffersAt(a, b, k) {
        assert k > 0 && DiffersAt(a[1..], b[1..], k - 1);
      }
    } else {
      assert DiffersAt(a, b, 0) <==> Below(a, b);
      assert forall k :: 0 < k <= |a| ==> !DiffersAt(a, b, k);
    }
  }

  /** a and b agree up to k, where a is the smaller. */
  predicate DiffersAt(a: bytes, b: bytes, k: nat)
    requires k <= |a|
  {
    k < |b| && a[..k] == b[..k] && (k == |a| || a[k] < b[k])
  }

  lemma {:induction false} BelowIsTotal(a: bytes, b: bytes)
    ensures a == b <==> !Below(a, b) && !Below(b, a)
    ensures !(Below(a, b) && Below(b, a))
    decreases |a|
  {
    if a != [] && b != [] {
      BelowIsTotal(a[1..], b[1..]);
      assert a == [a[0]] + a[1..] && b == [b[0]] + b[1..];
    }
  }

  lemma {:induction false} BelowIsTransitive(a: bytes, b: bytes, c: bytes)
    requires Below(a, b) && Below(b, c)
    ensures Below(a, c)
    decreases |a|
  {
    if a != [] && b != [] && c != [] && a[0] == b[0] == c[0] {
      BelowIsTransitive(a[1..], b[1..], c[1..]);
    }
  }

  /** Sorted and without duplicates. */
  predicate Sorted(s: seq<bytes>) {
    forall i, j :: 0 <= i < j < |s| ==> Below(s[i], s[j])
  }

  ghost predicate Lists(s: seq<bytes>, names: set<bytes>) {
    Sorted(s) && forall n :: n in s <==> n in names
  }

  /** There is only one sorted list of a set of names. */
  lemma {:induction false} SortedIsUnique(s: seq<bytes>, t: seq<bytes>, names: set<bytes>)
    requires Lists(s, names) && Lists(t, names)
    ensures s == t
    decreases |s|
  {
    EmptyListsNothing(s, names);
    EmptyListsNothing(t, names);
    if s != [] {
      SameFirst(s, t, names);
      forall n ensures n in s[1..] <==> n in names - {s[0]} { TailLists(s, names, n); }
      forall n ensures n in t[1..] <==> n in names - {s[0]} { TailLists(t, names, n); }
      SortedIsUnique(s[1..], t[1..], names - {s[0]});
      assert s == [s[0]] + s[1..] && t == [t[0]] + t[1..];
    }
  }

  lemma EmptyListsNothing(s: seq<bytes>, names: set<bytes>)
    requires Lists(s, names)
    ensures s == [] <==> names == {}
  {
    if s != [] {
      assert s[0] in names;
    }
  }

  lemma SameFirst(s: seq<bytes>, t: seq<bytes>, names: set<bytes>)
    requires Lists(s, names) && Lists(t, names) && s != [] && t != []
    ensures s[0] == t[0]
  {
    assert s[0] in t && t[0] in s;
    BelowIsTotal(s[0], t[0]);
  }

  lemma TailLists(s: seq<bytes>, names: set<bytes>, n: bytes)
    requires Lists(s, names) && s != []
    ensures n in s[1..] <==> n in names - {s[0]}
  {
    BelowIsTotal(s[0], s[0]);
    assert n in s <==> n == s[0] || n in s[1..];
  }

  // ---- Sorting ----

  /** Puts a new name in its place. */
  function Insert(n: bytes, s: seq<bytes>): seq<bytes> {
    if s == [] || Below(n, s[0]) then [n] + s else [s[0]] + Insert(n, s[1..])
  }

  lemma {:induction false} InsertLists(n: bytes, s: seq<bytes>, names: set<bytes>)
    requires Lists(s, names) && n !in names
    ensures Lists(Insert(n, s), names + {n})
    decreases |s|
  {
    if s == [] {
    } else if Below(n, s[0]) {
      forall j | 1 <= j < |s| ensures Below(n, s[j]) { BelowIsTransitive(n, s[0], s[j]); }
    } else {
      assert s[0] in names;
      BelowIsTotal(n, s[0]);
      forall m ensures m in s[1..] <==> m in names - {s[0]} { TailLists(s, names, m); }
      InsertLists(n, s[1..], names - {s[0]});
      var t := Insert(n, s[1..]);
      forall m | m in t ensures Below(s[0], m) { assert m in s[1..] || m == n; }
    }
  }

  function Elements(names: seq<bytes>): set<bytes> {
    set n | n in names
  }

  predicate Distinct(names: seq<bytes>) {
    forall i, j :: 0 <= i < j < |names| ==> names[i] != names[j]
  }

  /** sort.Strings, on names that are all different. */
  method SortStrings(names: seq<bytes>) returns (sorted: seq<bytes>)
    requires Distinct(names)
    ensures Lists(sorted, Elements(names))
  {
    sorted := [];
    for i := 0 to |names|
      invariant Lists(sorted, Elements(names[..i]))
    {
      ghost var before := Elements(names[..i]);
      assert names[..i + 1] == names[..i] + [names[i]];
      InsertLists(names[i], sorted, before);
      assert Elements(names[..i + 1]) == before + {names[i]};
      sorted := Insert(names[i], sorted);
    }
    assert names[..|names|] == names;
  }

  // ---- The two listings ----

  ghost function HeaderKeys(header: HeaderMap): set<bytes> {
    set n | n in header && !HasPrefix(n)
  }

  ghost function TrailersOf(header: HeaderMap): set<bytes> {
    set n | n in header && HasPrefix(n) :: n[|PREFIX|..]
  }

  lemma PrefixedAreTrailers(header: HeaderMap)
    ensures forall t: bytes :: t in TrailersOf(header) <==> PREFIX + t in header
  {
    forall t: bytes ensures t in TrailersOf(header) <==> PREFIX + t in header {
      assert HasPrefix(PREFIX + t) && (PREFIX + t)[|PREFIX|..] == t;
      forall n | n in header && HasPrefix(n) && n[|PREFIX|..] == t ensures PREFIX + t in header {
        StripPrefix(n);
      }
    }
  }

  /** GetResponseHeaderNames. The keys of a Go map come in any order. */
  method GetResponseHeaderNames(header: HeaderMap) returns (names: seq<bytes>)
    ensures Lists(names, HeaderKeys(header))
  {
    if |header| == 0 {
      return [];
    }
    names := [];
    var rest := header.Keys;
    while rest != {}
      invariant rest <= header.Keys && Distinct(names)
      invariant forall n :: n in names <==> n in header && n !in rest && !HasPrefix(n)
      decreases |rest|
    {
      var n: bytes :| n in rest;
      rest := rest - {n};
      if HasPrefix(n) {
        continue;
      }
      names := names + [n];
    }
    assert Elements(names) == HeaderKeys(header);
    if |names| == 0 {
      return [];
    }
    names := SortStrings(names);
  }

  /** trailerNames, behind the listings of request and of response trailers alike. */
  method TrailerNames(header: HeaderMap) returns (names: seq<bytes>)
    ensures Lists(names, TrailersOf(header))
  {
    names := [];
    var rest := header.Keys;
    while rest != {}
      invariant rest <= header.Keys && Distinct(names)
      invariant forall t :: t in names <==> PREFIX + t in header && PREFIX + t !in rest
      decreases |rest|
    {
      var n: bytes :| n in rest;
      rest := rest - {n};
      if HasPrefix(n) {
        StripPrefix(n);
        names := names + [n[|PREFIX|..]];
      }
    }
    PrefixedAreTrailers(header);
    assert Elements(names) == TrailersOf(header);
    names := SortStrings(names);
  }

  // ---- Partition ----

  lemma {:induction false} DistinctCount(s: seq<bytes>)
    requires Distinct(s)
    ensures |Elements(s)| == |s|
    decreases |s|
  {
    if s != [] {
      DistinctCount(s[1..]);
      assert Elements(s) == Elements(s[1..]) + {s[0]};
    }
  }

  /** A trailer's key. */
  function Prefixed(trailers: seq<bytes>): (keys: seq<bytes>)
    ensures |keys| == |trailers|
    ensures forall i :: 0 <= i < |keys| ==> keys[i] == PREFIX + trailers[i]
  {
    seq(|trailers|, i requires 0 <= i < |trailers| => PREFIX + trailers[i])
  }

  lemma SortedIsDistinct(s: seq<bytes>)
    requires Sorted(s)
    ensures Distinct(s)
  {
    forall i, j | 0 <= i < j < |s| ensures s[i] != s[j] {
      BelowIsTotal(s[i], s[j]);
    }
  }

  /** Every key of the map is a listed header name or the prefix and a listed trailer
      name, never both, and the two lists together are as long as the map. */
  lemma NamesPartitionTheKeys(header: HeaderMap, names: seq<bytes>, trailers: seq<bytes>)
    requires Lists(names, HeaderKeys(header)) && Lists(trailers, TrailersOf(header))
    ensures forall k :: k in header <==> k in names || k in Prefixed(trailers)
    ensures forall k :: !(k in names && k in Prefixed(trailers))
    ensures |names| + |trailers| == |header|
  {
    PrefixedAreTrailers(header);
    var keys := Prefixed(trailers);
    forall k ensures k in keys <==> k in header && HasPrefix(k) {
      if HasPrefix(k) {
        StripPrefix(k);
        if k in header {
          assert k[|PREFIX|..] in trailers;
        }
      }
    }
    SortedIsDistinct(names);
    SortedIsDistinct(trailers);
    forall i, j | 0 <= i < j < |keys| ensures keys[i] != keys[j] {
      assert keys[i][|PREFIX|..] == trailers[i] && keys[j][|PREFIX|..] == trailers[j];
    }
    forall i, j | 0 <= i < |names| && 0 <= j < |keys| ensures names[i] != keys[j] {
      assert names[i] in names && keys[j] in keys;
    }
    DistinctCount(names + keys);
    assert Elements(names + keys) == header.Keys;
  }
}
