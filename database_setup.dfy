/**
 * The statement extraction of `DatabaseSetup.initializeDatabase` in
 * config/db-setup.config.js: the setup script is split on ';', every piece is
 * trimmed, and the empty pieces are dropped.
 */
module DatabaseSetup {

  const Separator: char := ';'

  /**
   * The code points `String.prototype.trim` removes: the ECMAScript WhiteSpace
   * and LineTerminator characters.
   */
  predicate IsWhitespace(c: char)
  {
    c in Whitespace
  }

  const Whitespace: set<char> := {
    '\t', '\n', '\U{000B}', '\U{000C}', '\r', ' ', '\U{00A0}', '\U{1680}',
    '\U{2000}', '\U{2001}', '\U{2002}', '\U{2003}', '\U{2004}', '\U{2005}',
    '\U{2006}', '\U{2007}', '\U{2008}', '\U{2009}', '\U{200A}',
    '\U{2028}', '\U{2029}', '\U{202F}', '\U{205F}', '\U{3000}', '\U{FEFF}'
  }

  /**
   * `s.split(';')`: the pieces between separators, one more than there are
   * separators; no piece contains a separator.
   */
  function Split(s: string): (pieces: seq<string>)
    ensures |pieces| >= 1
    ensures forall k :: 0 <= k < |pieces| ==> Separator !in pieces[k]
    decreases |s|
  {
    if s == [] then [[]]
    else
      var rest := Split(s[1..]);
      if s[0] == Separator then [[]] + rest
      else [[s[0]] + rest[0]] + rest[1..]
  }

  /** `pieces.join(';')` */
  function Join(pieces: seq<string>): string
    decreases |pieces|
  {
    if pieces == [] then []
    else if |pieces| == 1 then pieces[0]
    else pieces[0] + [Separator] + Join(pieces[1..])
  }

  /** Joining the pieces with ';' gives back the script: nothing is lost by the split. */
  lemma {:induction false} JoinSplit(s: string)
    ensures Join(Split(s)) == s
    decreases |s|
  {
    if s != [] {
      var rest := Split(s[1..]);
      JoinSplit(s[1..]);
      if s[0] != Separator {
        if |rest| == 1 {
          assert Split(s) == [[s[0]] + rest[0]];
        } else {
          assert Split(s)[1..] == rest[1..];
          assert Join(rest) == rest[0] + [Separator] + Join(rest[1..]);
        }
      }
    }
  }

  /**
   * The split is the only decomposition into separator-free pieces that joins
   * back to the script.
   */
  lemma {:induction false} SplitJoin(pieces: seq<string>)
    requires |pieces| >= 1
    requires forall k :: 0 <= k < |pieces| ==> Separator !in pieces[k]
    ensures Split(Join(pieces)) == pieces
    decreases |pieces|
  {
    if |pieces| == 1 {
      SplitFreePrefix(pieces[0], []);
      assert pieces[0] + [] == pieces[0];
    } else {
      var tail := [Separator] + Join(pieces[1..]);
      SplitJoin(pieces[1..]);
      SplitFreePrefix(pieces[0], tail);
      assert tail[1..] == Join(pieces[1..]);
      assert tail[0] == Separator;
      assert Split(tail) == [[]] + pieces[1..];
      assert Split(tail)[0] == [] && Split(tail)[1..] == pieces[1..];
      assert pieces[0] + tail == Join(pieces);
      assert pieces[0] + [] == pieces[0];
      assert pieces == [pieces[0]] + pieces[1..];
    }
  }

  /** A separator-free text in front of t extends the first piece of t. */
  lemma {:induction false} SplitFreePrefix(p: string, t: string)
    requires Separator !in p
    ensures Split(p + t) == [p + Split(t)[0]] + Split(t)[1..]
    decreases |p|
  {
    if p != [] {
      var s := p + t;
      assert s[0] == p[0] && p[0] != Separator;
      assert s[1..] == p[1..] + t;
      SplitFreePrefix(p[1..], t);
      var rest := Split(s[1..]);
      assert rest[0] == p[1..] + Split(t)[0] && rest[1..] == Split(t)[1..];
      assert Split(s) == [[s[0]] + rest[0]] + rest[1..];
      assert [p[0]] + (p[1..] + Split(t)[0]) == p + Split(t)[0];
    } else {
      assert p + t == t;
      assert [] + Split(t)[0] == Split(t)[0];
      assert Split(t) == [Split(t)[0]] + Split(t)[1..];
    }
  }

  /** Splitting a script at one of its separators splits its pieces there. */
  lemma {:induction false} SplitAtSeparator(a: string, b: string)
    ensures Split(a + [Separator] + b) == Split(a) + Split(b)
    decreases |a|
  {
    if a == [] {
      assert a + [Separator] + b == [Separator] + b;
      assert ([Separator] + b)[1..] == b;
    } else {
      var s := a + [Separator] + b;
      assert s[1..] == a[1..] + [Separator] + b;
      assert s[0] == a[0];
      SplitAtSeparator(a[1..], b);
    }
  }

  /** The first half of `trim()`: the leading whitespace removed. */
  function TrimStart(s: string): (r: string)
    ensures |r| <= |s| && r == s[|s| - |r|..]
    ensures forall k :: 0 <= k < |s| - |r| ==> IsWhitespace(s[k])
    ensures r == [] || !IsWhitespace(r[0])
    decreases |s|
  {
    if s != [] && IsWhitespace(s[0]) then TrimStart(s[1..]) else s
  }

  /** The second half of `trim()`: the trailing whitespace removed. */
  function TrimEnd(s: string): (r: string)
    ensures |r| <= |s| && r == s[..|r|]
    ensures forall k :: |r| <= k < |s| ==> IsWhitespace(s[k])
    ensures r == [] || !IsWhitespace(r[|r| - 1])
    decreases |s|
  {
    if s != [] && IsWhitespace(s[|s| - 1]) then TrimEnd(s[..|s| - 1]) else s
  }

  /** `s.trim()`: what is left after removing leading and trailing whitespace. */
  function Trim(s: string): (r: string)
    ensures r == [] || (!IsWhitespace(r[0]) && !IsWhitespace(r[|r| - 1]))
  {
    TrimEnd(TrimStart(s))
  }

  /**
   * Trim removes only whitespace, and only at the two ends: the result is the
   * infix of s between a whitespace prefix and a whitespace suffix, and it is
   * empty exactly when s is all whitespace.
   */
  lemma TrimSpec(s: string) returns (a: nat)
    ensures a + |Trim(s)| <= |s| && Trim(s) == s[a..a + |Trim(s)|]
    ensures forall k :: 0 <= k < a ==> IsWhitespace(s[k])
    ensures forall k :: a + |Trim(s)| <= k < |s| ==> IsWhitespace(s[k])
    ensures Trim(s) == [] <==> forall k :: 0 <= k < |s| ==> IsWhitespace(s[k])
  {
    var t := TrimStart(s);
    a := |s| - |t|;
    var r := TrimEnd(t);
    assert r == t[..|r|];
    if r == [] {
      forall k | 0 <= k < |s| ensures IsWhitespace(s[k]) {
        if k >= a {
          assert s[k] == t[k - a];
        }
      }
    }
  }

  /** Trimming never introduces a character, so a piece without ';' stays without ';'. */
  lemma TrimKeepsOut(s: string, c: char)
    requires c !in s
    ensures c !in Trim(s)
  {
    var _ := TrimSpec(s);
  }

  /** `.filter((stmt) => stmt.length > 0)` */
  function NonEmpty(pieces: seq<string>): (r: seq<string>)
    ensures |r| <= |pieces|
    ensures forall x :: x in r <==> x in pieces && x != []
    decreases |pieces|
  {
    if pieces == [] then []
    else (if pieces[0] == [] then [] else [pieces[0]]) + NonEmpty(pieces[1..])
  }

  /** Filtering keeps the order: it distributes over concatenation. */
  lemma {:induction false} NonEmptyAppend(p: seq<string>, q: seq<string>)
    ensures NonEmpty(p + q) == NonEmpty(p) + NonEmpty(q)
    decreases |p|
  {
    if p == [] {
      assert p + q == q;
    } else {
      assert (p + q)[1..] == p[1..] + q;
      NonEmptyAppend(p[1..], q);
    }
  }

  /** `.map((stmt) => stmt.trim())` */
  function TrimAll(pieces: seq<string>): (r: seq<string>)
    ensures |r| == |pieces|
    ensures forall k :: 0 <= k < |r| ==>
      |r[k]| <= |pieces[k]| && (r[k] == [] || (!IsWhitespace(r[k][0]) && !IsWhitespace(r[k][|r[k]| - 1])))
  {
    seq(|pieces|, k requires 0 <= k < |pieces| => Trim(pieces[k]))
  }

  lemma TrimAllAppend(p: seq<string>, q: seq<string>)
    ensures TrimAll(p + q) == TrimAll(p) + TrimAll(q)
  {
    var l, r := TrimAll(p + q), TrimAll(p) + TrimAll(q);
    assert |l| == |r|;
    forall k | 0 <= k < |l| ensures l[k] == r[k] {
      assert l[k] == Trim((p + q)[k]);
      if k < |p| {
        assert (p + q)[k] == p[k] && r[k] == TrimAll(p)[k];
      } else {
        assert (p + q)[k] == q[k - |p|] && r[k] == TrimAll(q)[k - |p|];
      }
    }
  }


  /**
   * The statements of the setup script, in script order: none is empty, none
   * contains ';', none starts or ends with whitespace.
   */
  function Statements(script: string): (r: seq<string>)
    ensures forall k :: 0 <= k < |r| ==>
      && r[k] != [] && Separator !in r[k]
      && !IsWhitespace(r[k][0]) && !IsWhitespace(r[k][|r[k]| - 1])
  {
    TrimmedShape(Split(script));
    NonEmpty(TrimAll(Split(script)))
  }

  /** Trimmed, non-empty, ';'-free pieces are statements of the required shape. */
  lemma TrimmedShape(pieces: seq<string>)
    requires forall k :: 0 <= k < |pieces| ==> Separator !in pieces[k]
    ensures forall k :: 0 <= k < |NonEmpty(TrimAll(pieces))| ==>
      var x := NonEmpty(TrimAll(pieces))[k];
      && x != [] && Separator !in x
      && !IsWhitespace(x[0]) && !IsWhitespace(x[|x| - 1])
  {
    var trimmed := TrimAll(pieces);
    forall i | 0 <= i < |trimmed| ensures Separator !in trimmed[i] {
      TrimKeepsOut(pieces[i], Separator);
    }
    var r := NonEmpty(trimmed);
    forall k | 0 <= k < |r| ensures r[k] in trimmed && r[k] != [] {
      assert r[k] in r;
    }
  }

  /** The statements are exactly the non-empty trimmed pieces between separators. */
  lemma StatementsAreTrimmedPieces(script: string, x: string)
    ensures x in Statements(script) ==>
      x != [] && exists k :: 0 <= k < |Split(script)| && x == Trim(Split(script)[k])
    ensures (x != [] && exists k :: 0 <= k < |Split(script)| && x == Trim(Split(script)[k])) ==>
      x in Statements(script)
  {
    var pieces := Split(script);
    assert Statements(script) == NonEmpty(TrimAll(pieces));
    assert x in Statements(script) <==> x in TrimAll(pieces) && x != [];
    TrimmedMembers(pieces, x);
  }

  lemma TrimmedMembers(pieces: seq<string>, x: string)
    ensures x in TrimAll(pieces) <==> exists k :: 0 <= k < |pieces| && x == Trim(pieces[k])
  {
    var trimmed := TrimAll(pieces);
    if x in trimmed {
      var k :| 0 <= k < |trimmed| && trimmed[k] == x;
      assert x == Trim(pieces[k]);
    }
    if exists k :: 0 <= k < |pieces| && x == Trim(pieces[k]) {
      var k :| 0 <= k < |pieces| && x == Trim(pieces[k]);
      assert trimmed[k] == x;
    }
  }

  /**
   * Order: the statements before a separator come first, then those after it,
   * each group in its own order.
   */
  lemma StatementsAtSeparator(a: string, b: string)
    ensures Statements(a + [Separator] + b) == Statements(a) + Statements(b)
  {
    SplitAtSeparator(a, b);
    TrimAllAppend(Split(a), Split(b));
    NonEmptyAppend(TrimAll(Split(a)), TrimAll(Split(b)));
  }

  /** A script of separators and whitespace only has no statements. */
  lemma NoStatements(script: string)
    requires forall k :: 0 <= k < |script| ==> script[k] == Separator || IsWhitespace(script[k])
    ensures Statements(script) == []
  {
    var pieces := Split(script);
    var trimmed := TrimAll(pieces);
    forall k | 0 <= k < |pieces| ensures trimmed[k] == [] {
      forall i | 0 <= i < |pieces[k]| ensures IsWhitespace(pieces[k][i]) {
        SplitChars(script, k, i);
      }
      var _ := TrimSpec(pieces[k]);
    }
    if Statements(script) != [] {
      assert Statements(script)[0] in NonEmpty(trimmed);
    }
  }

  /** Every character of a piece is a non-separator character of the script. */
  lemma {:induction false} SplitChars(s: string, k: nat, i: nat)
    requires k < |Split(s)| && i < |Split(s)[k]|
    ensures exists j :: 0 <= j < |s| && s[j] == Split(s)[k][i]
    decreases |s|
  {
    var rest := Split(s[1..]);
    if s[0] == Separator {
      SplitChars(s[1..], k - 1, i);
      var j :| 0 <= j < |s[1..]| && s[1..][j] == rest[k - 1][i];
      assert s[j + 1] == s[1..][j];
    } else if k == 0 && i == 0 {
      assert s[0] == Split(s)[0][0];
    } else {
      var k', i' := if k == 0 then 0 else k, if k == 0 then i - 1 else i;
      assert Split(s)[k][i] == rest[k'][i'];
      SplitChars(s[1..], k', i');
      var j :| 0 <= j < |s[1..]| && s[1..][j] == rest[k'][i'];
      assert s[j + 1] == s[1..][j];
    }
  }

  /** A script without ';' is a single piece. */
  lemma {:induction false} SplitWithoutSeparator(s: string)
    requires Separator !in s
    ensures Split(s) == [s]
  {
    SplitFreePrefix(s, []);
    assert s + [] == s;
  }

  /** A script without ';' that is not blank is one statement: the trimmed script. */
  lemma SingleStatement(script: string)
    requires Separator !in script
    requires exists k :: 0 <= k < |script| && !IsWhitespace(script[k])
    ensures Statements(script) == [Trim(script)]
  {
    SplitWithoutSeparator(script);
    assert TrimAll([script]) == [Trim(script)];
  }
}
