/**
 * The item expander of repositories/item.repository.js: an array of counts
 * becomes the names "A1".."A<n0>", "B1".."B<n1>", ... in category order.
 */
module ItemRepository {
  import opened Wrappers
  import opened CombinationValidator

  /**
   * Number of categories whose letter `65 + j` is a Unicode scalar value below
   * the surrogate block; the model is defined for arrays of at most this length.
   */
  const MaxCategories: nat := 0xD800 - 65

  /** `String.fromCharCode(65 + j)`: "A" for category 0, "B" for category 1, ... */
  function Letter(j: nat): char
    requires j < MaxCategories
  {
    (65 + j) as char
  }

  function DigitChar(d: nat): char
    requires d < 10
  {
    ('0' as int + d) as char
  }

  predicate AllDigits(s: string)
  {
    forall k :: 0 <= k < |s| ==> '0' <= s[k] <= '9'
  }

  /** The decimal text of a number, as `${n}` writes it: digits, no leading zero. */
  function Decimal(n: nat): (r: string)
    ensures |r| >= 1 && AllDigits(r)
    ensures n > 0 ==> r[0] != '0'
    decreases n
  {
    if n < 10 then [DigitChar(n)] else Decimal(n / 10) + [DigitChar(n % 10)]
  }

  /** Reads a string of decimal digits back as a number. */
  function ParseDecimal(s: string): nat
    requires AllDigits(s)
    decreases |s|
  {
    if s == [] then 0 else 10 * ParseDecimal(s[..|s| - 1]) + (s[|s| - 1] as int - '0' as int)
  }

  /** Decimal text reads back as the number it came from, so it is injective. */
  lemma {:induction false} ParseDecimalOfDecimal(n: nat)
    ensures ParseDecimal(Decimal(n)) == n
    decreases n
  {
    if n >= 10 {
      var s := Decimal(n);
      ParseDecimalOfDecimal(n / 10);
      assert s[..|s| - 1] == Decimal(n / 10);
    }
  }

  /** The name of the k-th item (1-based) of category j: letter then ordinal. */
  function ItemName(j: nat, k: nat): string
    requires j < MaxCategories
  {
    [Letter(j)] + Decimal(k)
  }

  function Positive(count: int): nat
  {
    if count > 0 then count else 0
  }

  /** The names one category contributes: none for a count of zero or less. */
  function CategoryNames(j: nat, count: int): seq<string>
    requires j < MaxCategories
  {
    seq(Positive(count), i requires 0 <= i < Positive(count) => ItemName(j, i + 1))
  }

  /** The accumulated array after the reduce has visited every entry of `data`. */
  function Expand(data: seq<int>): (r: seq<string>)
    requires |data| <= MaxCategories
    ensures |r| == SumPositive(data)
    decreases |data|
  {
    if data == [] then []
    else Expand(data[..|data| - 1]) + CategoryNames(|data| - 1, data[|data| - 1])
  }

  /** Sum of the positive counts: the number of names produced. */
  function SumPositive(data: seq<int>): nat
    decreases |data|
  {
    if data == [] then 0 else SumPositive(data[..|data| - 1]) + Positive(data[|data| - 1])
  }

  /** Position in the output of the first name of category j. */
  function Offset(data: seq<int>, j: nat): nat
    requires j <= |data|
  {
    SumPositive(data[..j])
  }

  /**
   * `getItems`: the reduce over the counts with an accumulator array into which a
   * nested loop pushes letter-plus-ordinal names.
   */
  method GetItems(data: seq<int>) returns (items: seq<string>)
    requires |data| <= MaxCategories
    ensures items == Expand(data)
  {
    items := [];
    var letter := 0;
    while letter < |data|
      invariant 0 <= letter <= |data|
      invariant items == Expand(data[..letter])
    {
      var startingLetter := Letter(letter);
      var count := data[letter];
      ghost var before := items;
      var i := 0;
      while i < count
        invariant 0 <= i <= Positive(count)
        invariant items == before + CategoryNames(letter, i)
      {
        items := items + [[startingLetter] + Decimal(i + 1)];
        assert CategoryNames(letter, i + 1) == CategoryNames(letter, i) + [ItemName(letter, i + 1)];
        i := i + 1;
      }
      assert data[..letter + 1][..letter] == data[..letter];
      letter := letter + 1;
    }
    assert data[..letter] == data;
  }

  /** Category j starts right after category j - 1 ends. */
  lemma OffsetStep(data: seq<int>, j: nat)
    requires j < |data|
    ensures Offset(data, j + 1) == Offset(data, j) + Positive(data[j])
  {
    assert data[..j + 1][..j] == data[..j];
  }

  /** Offsets never decrease, and the last one is the total. */
  lemma {:induction false} OffsetMonotone(data: seq<int>, j: nat, j': nat)
    requires j <= j' <= |data|
    ensures Offset(data, j) <= Offset(data, j')
    ensures Offset(data, |data|) == SumPositive(data)
    decreases j' - j
  {
    assert data[..|data|] == data;
    if j < j' {
      OffsetStep(data, j' - 1);
      OffsetMonotone(data, j, j' - 1);
    }
  }

  /** The k-th name of category j sits at position Offset(data, j) + k - 1. */
  lemma {:induction false} ExpandAt(data: seq<int>, j: nat, k: nat)
    requires |data| <= MaxCategories
    requires j < |data| && 1 <= k <= data[j]
    ensures Offset(data, j) + k - 1 < |Expand(data)|
    ensures Expand(data)[Offset(data, j) + k - 1] == ItemName(j, k)
    decreases |data|
  {
    var init := data[..|data| - 1];
    if j < |data| - 1 {
      assert init[j] == data[j];
      ExpandAt(init, j, k);
      assert init[..j] == data[..j];
      OffsetMonotone(init, j + 1, |init|);
      OffsetStep(init, j);
    } else {
      assert data[..j] == init;
      assert Offset(data, j) == |Expand(init)|;
    }
  }

  /**
   * Every position of the output holds the k-th name of some category j with
   * 1 <= k <= data[j], at position Offset(data, j) + k - 1.
   */
  lemma {:induction false} ExpandSource(data: seq<int>, p: nat) returns (j: nat, k: nat)
    requires |data| <= MaxCategories
    requires p < |Expand(data)|
    ensures j < |data| && 1 <= k <= data[j]
    ensures p == Offset(data, j) + k - 1
    ensures Expand(data)[p] == ItemName(j, k)
    ensures Prefix(Expand(data)[p]) == Some(Letter(j) as int)
    decreases |data|
  {
    var init := data[..|data| - 1];
    if p < |Expand(init)| {
      j, k := ExpandSource(init, p);
      assert data[j] == init[j];
      assert data[..j] == init[..j];
    } else {
      j := |data| - 1;
      k := p - |Expand(init)| + 1;
      assert data[..j] == init;
    }
  }

  /**
   * Category-major order: in the output, every name of category j comes before
   * every name of a later category j'.
   */
  lemma CategoryMajor(data: seq<int>, j: nat, k: nat, j': nat, k': nat) returns (p: nat, p': nat)
    requires |data| <= MaxCategories
    requires j < j' < |data|
    requires 1 <= k <= data[j] && 1 <= k' <= data[j']
    ensures p < p' < |Expand(data)|
    ensures Expand(data)[p] == ItemName(j, k) && Expand(data)[p'] == ItemName(j', k')
  {
    p, p' := Offset(data, j) + k - 1, Offset(data, j') + k' - 1;
    ExpandAt(data, j, k);
    ExpandAt(data, j', k');
    OffsetStep(data, j);
    OffsetMonotone(data, j + 1, j');
  }

  /** Number of names whose prefix (first UTF-16 code unit) is the character c. */
  function CountWithPrefix(s: seq<string>, c: char): nat
    decreases |s|
  {
    if s == [] then 0
    else CountWithPrefix(s[..|s| - 1], c) + (if Prefix(s[|s| - 1]) == Some(c as int) then 1 else 0)
  }

  lemma {:induction false} CountWithPrefixAppend(s: seq<string>, t: seq<string>, c: char)
    ensures CountWithPrefix(s + t, c) == CountWithPrefix(s, c) + CountWithPrefix(t, c)
    decreases |t|
  {
    if t == [] {
      assert s + t == s;
    } else {
      assert (s + t)[..|s + t| - 1] == s + t[..|t| - 1];
      CountWithPrefixAppend(s, t[..|t| - 1], c);
    }
  }

  lemma {:induction false} CountInCategory(j: nat, count: int, c: char)
    requires j < MaxCategories
    ensures CountWithPrefix(CategoryNames(j, count), c) == if c == Letter(j) then Positive(count) else 0
    decreases Positive(count)
  {
    if count > 0 {
      assert CategoryNames(j, count)[..count - 1] == CategoryNames(j, count - 1);
      CountInCategory(j, count - 1, c);
    }
  }

  /** The letter of category j prefixes exactly data[j] names (none when data[j] <= 0). */
  lemma {:induction false} CountPerCategory(data: seq<int>, j: nat)
    requires |data| <= MaxCategories && j < |data|
    ensures CountWithPrefix(Expand(data), Letter(j)) == Positive(data[j])
    decreases |data|
  {
    var init := data[..|data| - 1];
    var last := |data| - 1;
    CountWithPrefixAppend(Expand(init), CategoryNames(last, data[last]), Letter(j));
    CountInCategory(last, data[last], Letter(j));
    if j < last {
      CountPerCategory(init, j);
      assert Letter(j) != Letter(last) by {
        assert Letter(j) as int == 65 + j;
      }
    } else {
      CountAbsent(init, j);
    }
  }

  /** Names of the categories of `data` never carry the letter of a later category m. */
  lemma {:induction false} CountAbsent(data: seq<int>, m: nat)
    requires |data| <= m < MaxCategories
    ensures CountWithPrefix(Expand(data), Letter(m)) == 0
    decreases |data|
  {
    if data != [] {
      var init := data[..|data| - 1];
      var last := |data| - 1;
      CountWithPrefixAppend(Expand(init), CategoryNames(last, data[last]), Letter(m));
      CountInCategory(last, data[last], Letter(m));
      assert Letter(last) as int == 65 + last && Letter(m) as int == 65 + m;
      CountAbsent(init, m);
    }
  }

  /** No name is produced twice. */
  lemma ExpandDistinct(data: seq<int>)
    requires |data| <= MaxCategories
    ensures forall p, q :: 0 <= p < q < |Expand(data)| ==> Expand(data)[p] != Expand(data)[q]
  {
    forall p, q | 0 <= p < q < |Expand(data)| ensures Expand(data)[p] != Expand(data)[q] {
      var j, k := ExpandSource(data, p);
      var j', k' := ExpandSource(data, q);
      if j == j' {
        if Expand(data)[p] == Expand(data)[q] {
          assert Decimal(k) == ItemName(j, k)[1..] == ItemName(j', k')[1..] == Decimal(k');
          ParseDecimalOfDecimal(k);
          ParseDecimalOfDecimal(k');
        }
      } else {
        assert Letter(j) as int == 65 + j && Letter(j') as int == 65 + j';
        assert ItemName(j, k)[0] != ItemName(j', k')[0];
      }
    }
  }
}
