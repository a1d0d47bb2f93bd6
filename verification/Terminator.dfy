/** The two on-line matchers that look for the data mode terminator, one symbol at a time,
    against a plain substring search. The symbols are bytes, or bytes and timeouts. */
module Terminator {
  import opened Bytes

  // ---------------------------------------------------------------------------
  // The matchers: how many terminator bytes are matched after one more byte
  // ---------------------------------------------------------------------------

  /** raw_rx_handler: on a mismatch the match is dropped and the byte is tried once more
      against the first terminator byte. */
  function DataNext<T(==)>(t: seq<T>, m: nat, c: T): (r: nat)
    requires m < |t|
    ensures r <= |t|
  {
    if c == t[m] then m + 1 else if m > 0 && c == t[0] then 1 else 0
  }

  /** null_handler: on a mismatch the match is dropped, and the byte with it. */
  function NullNext<T(==)>(t: seq<T>, m: nat, c: T): (r: nat)
    requires m < |t|
    ensures r <= |t|
  {
    if c == t[m] then m + 1 else 0
  }

  /** The match after the bytes s; once the whole terminator has matched the mode is left. */
  function DataMatch<T(==)>(t: seq<T>, s: seq<T>): (m: nat)
    requires t != []
    ensures m <= |t|
  {
    if s == [] then 0
    else
      var m := DataMatch(t, s[..|s| - 1]);
      if m == |t| then m else DataNext(t, m, s[|s| - 1])
  }

  function NullMatch<T(==)>(t: seq<T>, s: seq<T>): (m: nat)
    requires t != []
    ensures m <= |t|
  {
    if s == [] then 0
    else
      var m := NullMatch(t, s[..|s| - 1]);
      if m == |t| then m else NullNext(t, m, s[|s| - 1])
  }

  lemma DataMatchStep<T(!new)>(t: seq<T>, s: seq<T>, c: T)
    requires t != [] && DataMatch(t, s) < |t|
    ensures DataMatch(t, s + [c]) == DataNext(t, DataMatch(t, s), c)
  {
    assert (s + [c])[..|s|] == s;
  }

  lemma NullMatchStep<T(!new)>(t: seq<T>, s: seq<T>, c: T)
    requires t != [] && NullMatch(t, s) < |t|
    ensures NullMatch(t, s + [c]) == NullNext(t, NullMatch(t, s), c)
  {
    assert (s + [c])[..|s|] == s;
  }

  // ---------------------------------------------------------------------------
  // Plain substring search
  // ---------------------------------------------------------------------------

  predicate EndsWith<T(==)>(s: seq<T>, w: seq<T>)
  {
    |w| <= |s| && s[|s| - |w|..] == w
  }

  /** t occurs in s, ending at byte e. */
  ghost predicate OccursAt<T(!new)>(t: seq<T>, s: seq<T>, e: nat)
  {
    e <= |s| && EndsWith(s[..e], t)
  }

  ghost predicate Occurs<T(!new)>(t: seq<T>, s: seq<T>)
  {
    exists e: nat :: OccursAt(t, s, e)
  }

  /** A matcher is exact when it has left after s precisely if t occurs in s. As this is
      asked of every prefix, it leaves with the last byte of the first occurrence. */
  ghost predicate DataExact<T(!new)>(t: seq<T>)
    requires t != []
  {
    forall s: seq<T> :: DataMatch(t, s) == |t| <==> Occurs(t, s)
  }

  ghost predicate NullExact<T(!new)>(t: seq<T>)
    requires t != []
  {
    forall s: seq<T> :: NullMatch(t, s) == |t| <==> Occurs(t, s)
  }

  // ---------------------------------------------------------------------------
  // When the matchers are exact
  // ---------------------------------------------------------------------------

  /** t[..b] is both a proper non-empty prefix and a suffix of t[..m]. */
  predicate Border<T(==)>(t: seq<T>, b: nat, m: nat)
  {
    1 <= b < m < |t| && EndsWith(t[..m], t[..b])
  }

  /** Wherever the matcher can be, a shorter match it forgets would want the same byte. */
  predicate NoForgottenMatch<T(==)>(t: seq<T>)
  {
    forall b: nat, m: nat | m < |t| && b < m :: Border(t, b, m) ==> t[b] == t[m]
  }

  predicate OneRepeatedByte<T(==)>(t: seq<T>)
  {
    forall i | 0 <= i < |t| :: t[i] == t[0]
  }

  predicate FirstByteDoesNotRecur<T(==)>(t: seq<T>)
  {
    forall i | 1 <= i < |t| :: t[i] != t[0]
  }

  // --- Suffixes ---------------------------------------------------------------

  lemma EndsWithAppend<T(!new)>(s: seq<T>, w: seq<T>, c: T)
    ensures EndsWith(s + [c], w + [c]) <==> EndsWith(s, w)
  {
    if |w| <= |s| {
      assert (s + [c])[|s| - |w|..] == s[|s| - |w|..] + [c];
      if s[|s| - |w|..] + [c] == w + [c] {
        assert s[|s| - |w|..] == (s[|s| - |w|..] + [c])[..|w|] == (w + [c])[..|w|] == w;
      }
    }
  }

  /** A non-empty suffix of s + [c] is a suffix of s followed by c. */
  lemma EndsWithSplit<T(!new)>(s: seq<T>, c: T, t: seq<T>, k: nat)
    requires 1 <= k <= |t| && EndsWith(s + [c], t[..k])
    ensures t[k - 1] == c && EndsWith(s, t[..k - 1])
  {
    assert t[..k] == t[..k - 1] + [t[k - 1]];
    assert (s + [c])[|s|] == c == (s + [c])[|s| + 1 - k..][k - 1];
    EndsWithAppend(s, t[..k - 1], c);
  }

  lemma EndsWithJoin<T(!new)>(s: seq<T>, c: T, t: seq<T>, k: nat)
    requires k < |t| && t[k] == c && EndsWith(s, t[..k])
    ensures EndsWith(s + [c], t[..k + 1])
  {
    assert t[..k + 1] == t[..k] + [c];
    EndsWithAppend(s, t[..k], c);
  }

  /** Of two suffixes the shorter one is a suffix of the longer one. */
  lemma SuffixOfSuffix<T(!new)>(s: seq<T>, u: seq<T>, w: seq<T>)
    requires EndsWith(s, u) && EndsWith(s, w) && |u| <= |w|
    ensures EndsWith(w, u)
  {
    assert w[|w| - |u|..] == s[|s| - |w|..][|w| - |u|..] == s[|s| - |u|..];
  }

  lemma OccursExtends<T(!new)>(t: seq<T>, s: seq<T>, c: T)
    ensures Occurs(t, s + [c]) <==> Occurs(t, s) || EndsWith(s + [c], t)
  {
    if Occurs(t, s) {
      var e: nat :| OccursAt(t, s, e);
      assert (s + [c])[..e] == s[..e];
      assert OccursAt(t, s + [c], e);
    }
    if EndsWith(s + [c], t) {
      assert (s + [c])[..|s| + 1] == s + [c];
      assert OccursAt(t, s + [c], |s| + 1);
    }
    if Occurs(t, s + [c]) {
      var e: nat :| OccursAt(t, s + [c], e);
      if e <= |s| {
        assert (s + [c])[..e] == s[..e];
        assert OccursAt(t, s, e);
      } else {
        assert (s + [c])[..e] == s + [c];
      }
    }
  }

  // --- Both matchers are sound: what they have matched is a suffix of the input -----

  lemma {:induction false} DataSound<T(!new)>(t: seq<T>, s: seq<T>)
    requires t != []
    ensures DataMatch(t, s) < |t| ==> EndsWith(s, t[..DataMatch(t, s)])
    ensures DataMatch(t, s) == |t| ==> Occurs(t, s)
  {
    if s != [] {
      var p, c := s[..|s| - 1], s[|s| - 1];
      assert s == p + [c];
      DataSound(t, p);
      OccursExtends(t, p, c);
      var m := DataMatch(t, p);
      if m < |t| {
        if c == t[m] {
          EndsWithJoin(p, c, t, m);
        } else if c == t[0] {
          EndsWithJoin(p, c, t, 0);
        }
      }
      assert t[..|t|] == t;
    } else {
      assert t[..0] == [];
    }
  }

  /** The match is the longest one there is, unless the mode has been left. */
  lemma {:induction false} DataLongest<T(!new)>(t: seq<T>, s: seq<T>, k: nat)
    requires t != [] && NoForgottenMatch(t)
    requires k <= |t| && EndsWith(s, t[..k])
    ensures DataMatch(t, s) == |t| || k <= DataMatch(t, s)
  {
    if s == [] || k == 0 {
    } else {
      var p, c := s[..|s| - 1], s[|s| - 1];
      assert s == p + [c];
      var m := DataMatch(t, p);
      EndsWithSplit(p, c, t, k);
      DataLongest(t, p, k - 1);
      if m < |t| && c != t[m] && k >= 2 {
        // k - 1 < m: the forgotten match t[..k - 1] is a border of t[..m].
        DataSound(t, p);
        SuffixOfSuffix(p, t[..k - 1], t[..m]);
        assert Border(t, k - 1, m);
        assert false;
      }
    }
  }

  lemma {:induction false} DataComplete<T(!new)>(t: seq<T>, s: seq<T>)
    requires t != [] && NoForgottenMatch(t) && Occurs(t, s)
    ensures DataMatch(t, s) == |t|
  {
    var e: nat :| OccursAt(t, s, e);
    assert |t| <= e <= |s|;
    var p, c := s[..|s| - 1], s[|s| - 1];
    assert s == p + [c];
    OccursExtends(t, p, c);
    if Occurs(t, p) {
      DataComplete(t, p);
    } else {
      assert t[..|t|] == t;
      DataLongest(t, s, |t|);
    }
  }

  // --- A forgotten match is fatal ---------------------------------------------------

  /** Every byte adds at most one to the match. */
  lemma {:induction false} DataGrowth<T(!new)>(t: seq<T>, s: seq<T>, x: seq<T>)
    requires t != [] && DataMatch(t, s) + |x| < |t|
    ensures DataMatch(t, s + x) <= DataMatch(t, s) + |x|
  {
    if x == [] {
      assert s + x == s;
    } else {
      var y := x[..|x| - 1];
      assert (s + x)[..|s + x| - 1] == s + y;
      DataGrowth(t, s, y);
    }
  }

  /** Feeding the terminator's own prefix matches it. */
  lemma {:induction false} DataPrefix<T(!new)>(t: seq<T>, k: nat)
    requires t != [] && k <= |t|
    ensures DataMatch(t, t[..k]) == k
  {
    if k == 0 {
    } else {
      assert t[..k][..k - 1] == t[..k - 1];
      DataPrefix(t, k - 1);
    }
  }

  lemma OccursAtEnd<T(!new)>(t: seq<T>, s: seq<T>)
    requires EndsWith(s, t)
    ensures Occurs(t, s)
  {
    assert s[..|s|] == s;
    assert OccursAt(t, s, |s|);
  }

  lemma BorderOccurs<T(!new)>(t: seq<T>, b: nat, m: nat)
    requires Border(t, b, m)
    ensures Occurs(t, t[..m] + t[b..])
  {
    var s := t[..m] + t[b..];
    assert s[m - b..] == t[..m][m - b..] + t[b..];
    assert t[..b] + t[b..] == t;
    OccursAtEnd(t, s);
  }

  /** The input that a forgotten match loses: t[..m], then what the shorter match wanted. */
  lemma DataLoses<T(!new)>(t: seq<T>, b: nat, m: nat)
    requires 1 <= b < m < |t| && t[b] != t[m]
    ensures DataMatch(t, t[..m] + t[b..]) < |t|
  {
    DataPrefix(t, m);
    var first := t[..m] + [t[b]];
    DataMatchStep(t, t[..m], t[b]);
    DataGrowth(t, first, t[b + 1..]);
    assert first + t[b + 1..] == t[..m] + t[b..];
  }

  lemma DataExactAt<T(!new)>(t: seq<T>, s: seq<T>)
    requires t != [] && NoForgottenMatch(t)
    ensures DataMatch(t, s) == |t| <==> Occurs(t, s)
  {
    DataSound(t, s);
    if Occurs(t, s) {
      DataComplete(t, s);
    }
  }

  /** The data mode matcher agrees with substring search on every input if and only if no
      match it forgets could have gone on. */
  lemma DataExactIff<T(!new)>(t: seq<T>)
    requires t != []
    ensures DataExact(t) <==> NoForgottenMatch(t)
  {
    if NoForgottenMatch(t) {
      forall s: seq<T> ensures DataMatch(t, s) == |t| <==> Occurs(t, s) {
        DataExactAt(t, s);
      }
    } else {
      var b: nat, m: nat :| m < |t| && b < m && Border(t, b, m) && t[b] != t[m];
      DataLoses(t, b, m);
      BorderOccurs(t, b, m);
    }
  }

  // --- The null mode matcher ----------------------------------------------------------

  /** For a repeated byte both matchers take the same steps. */
  lemma {:induction false} NullIsData<T(!new)>(t: seq<T>, s: seq<T>)
    requires t != [] && OneRepeatedByte(t)
    ensures NullMatch(t, s) == DataMatch(t, s)
  {
    if s == [] {
    } else {
      NullIsData(t, s[..|s| - 1]);
    }
  }

  lemma {:induction false} NullGrowth<T(!new)>(t: seq<T>, s: seq<T>, x: seq<T>)
    requires t != [] && NullMatch(t, s) + |x| < |t|
    ensures NullMatch(t, s + x) <= NullMatch(t, s) + |x|
  {
    if x == [] {
      assert s + x == s;
    } else {
      var y := x[..|x| - 1];
      assert (s + x)[..|s + x| - 1] == s + y;
      NullGrowth(t, s, y);
    }
  }

  lemma {:induction false} NullPrefix<T(!new)>(t: seq<T>, k: nat)
    requires t != [] && k <= |t|
    ensures NullMatch(t, t[..k]) == k
  {
    if k == 0 {
    } else {
      assert t[..k][..k - 1] == t[..k - 1];
      NullPrefix(t, k - 1);
    }
  }

  lemma NullLoses<T(!new)>(t: seq<T>, m: nat)
    requires 1 <= m < |t| && t[m] != t[0]
    ensures NullMatch(t, t[..m] + t) < |t|
  {
    NullPrefix(t, m);
    var first := t[..m] + [t[0]];
    NullMatchStep(t, t[..m], t[0]);
    NullGrowth(t, first, t[1..]);
    assert first + t[1..] == t[..m] + t;
  }

  lemma RepeatedByteForgetsNothing<T(!new)>(t: seq<T>)
    requires OneRepeatedByte(t)
    ensures NoForgottenMatch(t)
  {
  }

  /** The null mode matcher agrees with substring search on every input if and only if the
      terminator is one byte, repeated. */
  lemma NullExactIff<T(!new)>(t: seq<T>)
    requires t != []
    ensures NullExact(t) <==> OneRepeatedByte(t)
  {
    if OneRepeatedByte(t) {
      RepeatedByteForgetsNothing(t);
      DataExactIff(t);
      forall s: seq<T> ensures NullMatch(t, s) == |t| <==> Occurs(t, s) {
        NullIsData(t, s);
      }
    } else {
      var m :| 0 <= m < |t| && t[m] != t[0];
      NullLoses(t, m);
      assert (t[..m] + t)[m..] == t;
      OccursAtEnd(t, t[..m] + t);
    }
  }

  lemma BorderRecurs<T(!new)>(t: seq<T>, b: nat, m: nat)
    requires Border(t, b, m)
    ensures 1 <= m - b < |t| && t[m - b] == t[0]
  {
    assert t[..m][m - b..][0] == t[m - b];
    assert t[..b][0] == t[0];
  }

  /** The two families that data mode handles: one repeated byte, such as the default "+++",
      and a first byte that does not come again. */
  lemma ExactFamilies<T(!new)>(t: seq<T>)
    requires t != []
    ensures OneRepeatedByte(t) ==> DataExact(t) && NullExact(t)
    ensures FirstByteDoesNotRecur(t) ==> DataExact(t)
  {
    DataExactIff(t);
    NullExactIff(t);
    if FirstByteDoesNotRecur(t) {
      forall b: nat, m: nat | m < |t| && b < m ensures !Border(t, b, m) {
        if Border(t, b, m) {
          BorderRecurs(t, b, m);
          assert false;
        }
      }
    }
  }
}
