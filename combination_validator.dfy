/**
 * The prefix validator of utils/combination-validator.util.js: a combination is
 * valid when no two of its items share a first character.
 */
module CombinationValidator {
  import opened Wrappers

  /**
   * The first UTF-16 code unit of a character: the character itself inside the
   * Basic Multilingual Plane, the high surrogate of its pair outside it.
   */
  function FirstCodeUnit(c: char): (u: nat)
    ensures u < 0x10000
    ensures c as int < 0x10000 ==> u == c as int
    ensures c as int >= 0x10000 ==> 0xD800 <= u < 0xDC00
  {
    if c as int < 0x10000 then c as int else 0xD800 + (c as int - 0x10000) / 0x400
  }

  /**
   * `item[0]` in JavaScript: the first UTF-16 code unit of the item, or
   * `undefined` (None) for "".
   */
  function Prefix(item: string): (r: Option<nat>)
    ensures r == None <==> item == []
    ensures item != [] && item[0] as int < 0x10000 ==> r == Some(item[0] as int)
  {
    if |item| == 0 then None else Some(FirstCodeUnit(item[0]))
  }

  /**
   * Items that start with characters of the Basic Multilingual Plane share a
   * prefix exactly when they share their first character.
   */
  lemma PrefixBmp(x: string, y: string)
    requires x != [] && y != [] && x[0] as int < 0x10000 && y[0] as int < 0x10000
    ensures Prefix(x) == Prefix(y) <==> x[0] == y[0]
  {
    if Prefix(x) == Prefix(y) {
      assert x[0] as int == y[0] as int;
    }
  }

  /**
   * Two different characters outside the Basic Multilingual Plane with the same
   * high surrogate give the same prefix: "\U{1D400}1" and "\U{1D401}1" cannot be
   * combined.
   */
  lemma SharedHighSurrogate()
    ensures "\U{1D400}1" != "\U{1D401}1"
    ensures !DistinctPrefixes(["\U{1D400}1", "\U{1D401}1"])
  {
    var c := ["\U{1D400}1", "\U{1D401}1"];
    assert Prefix(c[0]) == Some(0xD835) == Prefix(c[1]);
  }

  /** The declarative meaning of validity: prefixes are pairwise distinct. */
  predicate DistinctPrefixes(c: seq<string>)
  {
    forall i, j :: 0 <= i < j < |c| ==> Prefix(c[i]) != Prefix(c[j])
  }

  /** The set of prefixes occurring in a combination. */
  function PrefixSet(c: seq<string>): set<Option<nat>>
  {
    set i | 0 <= i < |c| :: Prefix(c[i])
  }

  /** Appending one item keeps a combination valid exactly when its prefix is new. */
  lemma DistinctPrefixesSnoc(c: seq<string>, x: string)
    ensures DistinctPrefixes(c + [x]) <==> DistinctPrefixes(c) && Prefix(x) !in PrefixSet(c)
  {
    var d := c + [x];
    if Prefix(x) in PrefixSet(c) {
      var i :| 0 <= i < |c| && Prefix(c[i]) == Prefix(x);
      assert Prefix(d[i]) == Prefix(d[|c|]);
    }
    if DistinctPrefixes(d) {
      forall i, j | 0 <= i < j < |c| ensures Prefix(c[i]) != Prefix(c[j]) {
        assert c[i] == d[i] && c[j] == d[j];
      }
    }
  }

  /**
   * The scan of `isValid`: a set of seen prefixes, a left-to-right loop and an
   * early `false` at the first repeated prefix.
   */
  method IsValid(combination: seq<string>) returns (valid: bool)
    ensures valid <==> DistinctPrefixes(combination)
  {
    var seenPrefixes: set<Option<nat>> := {};
    var i := 0;
    while i < |combination|
      invariant 0 <= i <= |combination|
      invariant seenPrefixes == PrefixSet(combination[..i])
      invariant DistinctPrefixes(combination[..i])
    {
      var prefix := Prefix(combination[i]);
      DistinctPrefixesSnoc(combination[..i], combination[i]);
      assert combination[..i + 1] == combination[..i] + [combination[i]];
      if prefix in seenPrefixes {
        var j :| 0 <= j < i && Prefix(combination[..i][j]) == prefix;
        assert Prefix(combination[j]) == Prefix(combination[i]);
        return false;
      }
      seenPrefixes := seenPrefixes + {prefix};
      i := i + 1;
    }
    assert combination[..i] == combination;
    return true;
  }

  /** The empty combination and every combination of one item are valid. */
  lemma SmallCombinationsValid()
    ensures DistinctPrefixes([])
    ensures forall x: string :: DistinctPrefixes([x])
  {
  }

  /**
   * Validity is kept by every initial segment of a valid combination, and by
   * each of its items on its own.
   */
  lemma {:induction false} ValidPrefixClosed(c: seq<string>, k: nat)
    requires DistinctPrefixes(c) && k <= |c|
    ensures DistinctPrefixes(c[..k])
    ensures DistinctPrefixes([]) && (k < |c| ==> DistinctPrefixes([c[k]]))
  {
    forall i, j | 0 <= i < j < k ensures Prefix(c[..k][i]) != Prefix(c[..k][j]) {
      assert c[..k][i] == c[i] && c[..k][j] == c[j];
    }
  }

  /** The prefixes of `c + [x]` are those of c and the prefix of x. */
  lemma PrefixSetSnoc(c: seq<string>, x: string)
    ensures PrefixSet(c + [x]) == PrefixSet(c) + {Prefix(x)}
  {
    var d := c + [x];
    forall p | p in PrefixSet(d) ensures p in PrefixSet(c) + {Prefix(x)} {
      var i :| 0 <= i < |d| && Prefix(d[i]) == p;
      if i < |c| { assert d[i] == c[i]; }
    }
    forall p | p in PrefixSet(c) ensures p in PrefixSet(d) {
      var i :| 0 <= i < |c| && Prefix(c[i]) == p;
      assert d[i] == c[i];
    }
    assert d[|c|] == x;
  }

  /**
   * Validity means exactly that the set of prefixes is as large as the
   * combination; so a valid combination is never longer than the number of
   * prefixes available.
   */
  lemma {:induction false} DistinctPrefixesCardinality(c: seq<string>)
    ensures |PrefixSet(c)| <= |c|
    ensures DistinctPrefixes(c) <==> |PrefixSet(c)| == |c|
    decreases |c|
  {
    if c != [] {
      var init := c[..|c| - 1];
      var x := c[|c| - 1];
      assert c == init + [x];
      DistinctPrefixesCardinality(init);
      DistinctPrefixesSnoc(init, x);
      PrefixSetSnoc(init, x);
    } else {
      assert PrefixSet(c) == {};
    }
  }
}
