/** `stream_user_ages` and `calculate_average_age`: the age column is
    streamed as integers and reduced to a running (sum, count) pair, which
    is divided only at the end. */
module StreamAges {
  import opened Users

  /** Sum of a sequence of ages, taken from the back so that it follows a
      left-to-right accumulation one element at a time. */
  function Sum(s: seq<int>): int
  {
    if s == [] then 0 else Sum(s[..|s| - 1]) + s[|s| - 1]
  }

  /** The mean of the ages as an exact real, and 0 for an empty stream. */
  function Average(ages: seq<int>): real
  {
    if |ages| == 0 then 0.0 else Sum(ages) as real / |ages| as real
  }

  /** The age column of the table, each value coerced with `int()`. */
  function AgesOf(table: seq<StoredRow>): seq<int>
  {
    seq(|table|, i requires 0 <= i < |table| => AgeToInt(table[i].age))
  }

  /** `stream_user_ages()`: one integer age per row, in row order. */
  method StreamUserAges(table: seq<StoredRow>) returns (ages: seq<int>)
    ensures |ages| == |table|
    ensures forall i | 0 <= i < |table| :: ages[i] == AgeToInt(table[i].age)
  {
    ages := [];
    for i := 0 to |table|
      invariant |ages| == i
      invariant forall j | 0 <= j < i :: ages[j] == AgeToInt(table[j].age)
    {
      ages := ages + [AgeToInt(table[i].age)];
    }
  }

  /** `calculate_average_age()`: integer accumulation of the total and the
      count, then 0.0 for an empty stream and total / count otherwise. */
  method CalculateAverageAge(table: seq<StoredRow>) returns (average: real)
    ensures average == Average(AgesOf(table))
    ensures table == [] ==> average == 0.0
    ensures table != [] ==> average == Sum(AgesOf(table)) as real / |table| as real
  {
    var ages := StreamUserAges(table);
    assert ages == AgesOf(table);
    var totalAge := 0;
    var count := 0;
    for i := 0 to |ages|
      invariant totalAge == Sum(ages[..i])
      invariant count == i
    {
      assert ages[..i + 1][..i] == ages[..i];
      totalAge := totalAge + ages[i];
      count := count + 1;
    }
    assert ages[..|ages|] == ages;
    if count == 0 {
      return 0.0;
    }
    return totalAge as real / count as real;
  }

  /** If every age lies in [lo, hi] then so does their sum divided by
      their count. */
  lemma {:induction false} SumBounds(s: seq<int>, lo: int, hi: int)
    requires forall i | 0 <= i < |s| :: lo <= s[i] <= hi
    ensures lo * |s| <= Sum(s) <= hi * |s|
  {
    if s != [] {
      var init := s[..|s| - 1];
      SumBounds(init, lo, hi);
      assert lo * |s| == lo * |init| + lo;
      assert hi * |s| == hi * |init| + hi;
    }
  }

  /** The average of a non-empty stream of ages in [lo, hi] lies in [lo, hi]. */
  lemma AverageWithinBounds(ages: seq<int>, lo: int, hi: int)
    requires ages != []
    requires forall i | 0 <= i < |ages| :: lo <= ages[i] <= hi
    ensures lo as real <= Average(ages) <= hi as real
  {
    SumBounds(ages, lo, hi);
    var n := |ages| as real;
    var total := Sum(ages) as real;
    assert lo as real * n <= total <= hi as real * n;
    assert total / n * n == total;
  }

  /** A worked example: ages 20 and 30 average to 25. */
  lemma AverageExample()
    ensures Average([20, 30]) == 25.0
  {
    assert [20, 30][..1] == [20];
    assert [20][..0] == [];
  }
}
