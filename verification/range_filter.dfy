/**
 The page-range filter of `core/filters.py`: a validated list of tokens such
 as `["5", " 10-14", "35"]` is expanded to the page numbers it names, and the
 rows are kept whose page number is among them.
 */
module RangeFilter {
  import opened Decimal
  import opened Text
  import opened Validators
  import opened Models

  /** Python's `range(start, end)`: the integers from `start` up to, not including, `end`. */
  function Range(start: int, end: int): (r: seq<int>)
    ensures forall n :: n in r <==> start <= n < end
    ensures |r| == if start < end then end - start else 0
    decreases end - start
  {
    if start >= end then [] else [start] + Range(start + 1, end)
  }

  /** A valid range token splits at its dash into exactly two digit strings. */
  lemma SplitRangeToken(t: string)
    requires IsPageToken(t) && '-' in t
    ensures Split(t, '-') == [t[..IndexOf(t, '-')], t[IndexOf(t, '-') + 1..]]
  {
    var i := IndexOf(t, '-');
    var rest := t[i + 1..];
    assert '-' !in rest;
  }

  /** The first number of a valid range token. */
  function RangeStart(t: string): nat
    requires IsPageToken(t) && '-' in t
  {
    ParseDigits(t[..IndexOf(t, '-')])
  }

  /** The last number of a valid range token. */
  function RangeEnd(t: string): nat
    requires IsPageToken(t) && '-' in t
  {
    ParseDigits(t[IndexOf(t, '-') + 1..])
  }

  /**
   The page numbers one stripped, valid token contributes: a plain number
   contributes itself, and `a-b` contributes every number from `a` to `b`
   inclusive (none when `a > b`), because the end is moved one past `b`
   before the range is taken.
   */
  function TokenPages(t: string): (r: seq<int>)
    requires IsPageToken(t)
    ensures '-' !in t ==> r == [ParseDigits(t)]
    ensures '-' in t ==> forall n :: n in r <==> RangeStart(t) <= n <= RangeEnd(t)
    ensures '-' in t && RangeStart(t) > RangeEnd(t) ==> r == []
  {
    if '-' !in t then [ParseDigits(t)]
    else
      SplitRangeToken(t);
      var parts := Split(t, '-');
      var start := ParseDigits(parts[0]);
      var end := ParseDigits(parts[1]) + 1;
      Range(start, end)
  }

  predicate AllValid(value: seq<string>)
  {
    forall k :: 0 <= k < |value| ==> ValidFilterToken(value[k])
  }

  /** The page numbers a raw token contributes once it is stripped. */
  function Contribution(t: string): seq<int>
    requires ValidFilterToken(t)
  {
    TokenPages(Strip(t))
  }

  /** Some token of the list names page `n`. */
  predicate Named(value: seq<string>, n: int)
    requires AllValid(value)
  {
    exists k :: 0 <= k < |value| && n in Contribution(value[k])
  }

  /** The list of page numbers built from the tokens, in token order. */
  function PageNumbers(value: seq<string>): (r: seq<int>)
    requires AllValid(value)
    ensures forall n :: n in r <==> Named(value, n)
  {
    if |value| == 0 then []
    else
      var rest := PageNumbers(value[1..]);
      assert forall n :: Named(value, n) <==> n in Contribution(value[0]) || Named(value[1..], n) by {
        forall n
          ensures Named(value, n) ==> n in Contribution(value[0]) || Named(value[1..], n)
        {
          if Named(value, n) {
            var k :| 0 <= k < |value| && n in Contribution(value[k]);
            if k > 0 {
              assert value[1..][k - 1] == value[k];
            }
          }
        }
        forall n
          ensures Named(value[1..], n) ==> Named(value, n)
        {
          if Named(value[1..], n) {
            var k :| 0 <= k < |value| - 1 && n in Contribution(value[1..][k]);
            assert value[1..][k] == value[k + 1];
          }
        }
      }
      Contribution(value[0]) + rest
  }

  /**
   The filter as the code runs it. An empty value leaves the rows alone. So
   does a value whose tokens name no page at all (every token a backwards
   range such as `5-3`): the library filter the expansion is handed to treats
   an empty list as "no value" and returns its input unchanged.
   */
  function FilterAsWritten(rows: seq<Page>, value: seq<string>): (r: seq<Page>)
    requires AllValid(value)
    ensures value == [] ==> r == rows
    ensures PageNumbers(value) == [] ==> r == rows
    ensures PageNumbers(value) != [] ==>
      forall q :: q in r <==> q in rows && q.pageNo in PageNumbers(value)
  {
    if value == [] then rows
    else
      var numbers := PageNumbers(value);
      if numbers == [] then rows
      else Where(rows, (q: Page) => q.pageNo in numbers)
  }

  /**
   The filter as intended: an empty value leaves the rows alone, and
   otherwise exactly the rows whose page number some token names are kept.
   */
  function Filter(rows: seq<Page>, value: seq<string>): (r: seq<Page>)
    requires AllValid(value)
    ensures value == [] ==> r == rows
    ensures value != [] ==> forall q :: q in r <==> q in rows && Named(value, q.pageNo)
  {
    if value == [] then rows
    else
      var numbers := PageNumbers(value);
      Where(rows, (q: Page) => q.pageNo in numbers)
  }

  /**
   The filter as written and the corrected one differ only on values whose
   tokens name no page at all.
   */
  lemma AsWrittenAgreesWhenAPageIsNamed(rows: seq<Page>, value: seq<string>)
    requires AllValid(value)
    requires value == [] || PageNumbers(value) != []
    ensures FilterAsWritten(rows, value) == Filter(rows, value)
  {
  }

  lemma DigitExamples()
    ensures ParseDigits("5") == 5 && ParseDigits("3") == 3
  {
    assert "5"[..0] == "" && "3"[..0] == "";
  }

  lemma BackwardsTokenStrips()
    ensures Strip("5-3") == "5-3"
  {
    StripUnpadded("5-3");
  }

  lemma BackwardsTokenDash()
    ensures '-' in "5-3" && IndexOf("5-3", '-') == 1
  {
    assert "5-3"[1] == '-';
    assert "5-3"[1..][0] == '-';
  }

  lemma BackwardsTokenParts()
    ensures IsPageToken("5-3") && RangeStart("5-3") == 5 && RangeEnd("5-3") == 3
  {
    BackwardsTokenDash();
    assert "5-3"[..1] == "5" && "5-3"[2..] == "3";
    DigitExamples();
  }

  /** "5-3" is a well-formed token that names no page. */
  lemma BackwardsToken()
    ensures ValidFilterToken("5-3") && Contribution("5-3") == []
  {
    BackwardsTokenStrips();
    BackwardsTokenParts();
  }

  /** Backwards ranges: the code shows every row where no row was asked for. */
  lemma BackwardsRangeShowsEverything(rows: seq<Page>)
    requires |rows| > 0
    ensures AllValid(["5-3"])
    ensures FilterAsWritten(rows, ["5-3"]) == rows
    ensures Filter(rows, ["5-3"]) == []
  {
    BackwardsToken();
    var numbers := PageNumbers(["5-3"]);
    assert numbers == [];
    WhereNone(rows, (q: Page) => q.pageNo in numbers);
  }

  /** `Where` keeps the same rows for two tests that agree on every row. */
  lemma {:induction false} WhereAgrees(rows: seq<Page>, f: Page -> bool, g: Page -> bool)
    requires forall q :: q in rows ==> f(q) == g(q)
    ensures Where(rows, f) == Where(rows, g)
    decreases |rows|
  {
    if |rows| > 0 {
      assert forall q :: q in rows[1..] ==> q in rows;
      WhereAgrees(rows[1..], f, g);
    }
  }

  /** Every token of `v1`, once stripped, is also a stripped token of `v2`. */
  predicate Covers(v1: seq<string>, v2: seq<string>)
  {
    forall k :: 0 <= k < |v1| ==> exists j :: 0 <= j < |v2| && Strip(v2[j]) == Strip(v1[k])
  }

  /** A page named by a token list is named by any list covering its tokens. */
  lemma SameTokensSamePages(v1: seq<string>, v2: seq<string>, n: int)
    requires AllValid(v1) && AllValid(v2)
    requires Covers(v1, v2)
    requires n in PageNumbers(v1)
    ensures n in PageNumbers(v2)
  {
    var k :| 0 <= k < |v1| && n in Contribution(v1[k]);
    var j :| 0 <= j < |v2| && Strip(v2[j]) == Strip(v1[k]);
    assert n in Contribution(v2[j]);
  }

  /** A list covering the tokens of another names every page the other names. */
  lemma NumbersIncluded(v1: seq<string>, v2: seq<string>)
    requires AllValid(v1) && AllValid(v2)
    requires Covers(v1, v2)
    ensures forall n :: n in PageNumbers(v1) ==> n in PageNumbers(v2)
  {
    forall n | n in PageNumbers(v1)
      ensures n in PageNumbers(v2)
    {
      SameTokensSamePages(v1, v2, n);
    }
  }

  /** Token lists that strip to the same tokens expand to the same page numbers. */
  lemma SameTokensSameNumbers(v1: seq<string>, v2: seq<string>)
    requires AllValid(v1) && AllValid(v2)
    requires Covers(v1, v2) && Covers(v2, v1)
    ensures forall n :: n in PageNumbers(v1) <==> n in PageNumbers(v2)
  {
    NumbersIncluded(v1, v2);
    NumbersIncluded(v2, v1);
  }

  /**
   Only the set of stripped tokens matters: reordering or repeating tokens, or
   padding them with whitespace, selects the same rows.
   */
  lemma FilterDependsOnTokenSet(rows: seq<Page>, v1: seq<string>, v2: seq<string>)
    requires AllValid(v1) && AllValid(v2)
    requires Covers(v1, v2) && Covers(v2, v1)
    ensures Filter(rows, v1) == Filter(rows, v2)
    ensures FilterAsWritten(rows, v1) == FilterAsWritten(rows, v2)
  {
    if v1 != [] {
      CoveredIsNonEmpty(v1, v2);
    }
    if v2 != [] {
      CoveredIsNonEmpty(v2, v1);
    }
    if v1 != [] {
      var n1 := PageNumbers(v1);
      var n2 := PageNumbers(v2);
      SameTokensSameNumbers(v1, v2);
      WhereAgrees(rows, (q: Page) => q.pageNo in n1, (q: Page) => q.pageNo in n2);
      SameMembersEmptyTogether(n1, n2);
      if n1 != [] {
        AsWrittenAgreesWhenAPageIsNamed(rows, v1);
        AsWrittenAgreesWhenAPageIsNamed(rows, v2);
      }
    }
  }

  /** Two lists with the same members are empty together. */
  lemma SameMembersEmptyTogether(a: seq<int>, b: seq<int>)
    requires forall n :: n in a <==> n in b
    ensures a == [] <==> b == []
  {
    if a != [] {
      var x := a[0];
      assert x in a;
      assert x in b;
    }
    if b != [] {
      var y := b[0];
      assert y in b;
      assert y in a;
    }
  }

  /** A non-empty token list is covered only by a non-empty one. */
  lemma CoveredIsNonEmpty(v1: seq<string>, v2: seq<string>)
    requires Covers(v1, v2) && v1 != []
    ensures v2 != []
  {
    var j :| 0 <= j < |v2| && Strip(v2[j]) == Strip(v1[0]);
  }
}
