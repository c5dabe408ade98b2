/** The item record shared by server and client, and the text search both sides apply to it:
    does the decimal text of the item's value contain the term. */
module Items {
  import opened Seqs

  /** One entry of the collection. The server generates `id == value`; the client only ever
      holds items it received from the server. */
  datatype Item = Item(id: int, value: int)

  predicate IsDigit(c: char)
  {
    '0' <= c <= '9'
  }

  predicate AllDigits(s: string)
  {
    forall i :: 0 <= i < |s| ==> IsDigit(s[i])
  }

  function Digit(d: nat): (c: char)
    requires d < 10
    ensures IsDigit(c)
  {
    ('0' as int + d) as char
  }

  function DigitValue(c: char): (d: nat)
    requires IsDigit(c)
    ensures d < 10
    ensures Digit(d) == c
  {
    c as int - '0' as int
  }

  /** `n.toString()` for a non-negative integer: its decimal digits, most significant first,
      without leading zeros. */
  function Decimal(n: nat): (r: string)
    ensures |r| >= 1
    ensures AllDigits(r)
    ensures r[0] == '0' ==> n == 0
    ensures n == 0 ==> r == "0"
    decreases n
  {
    if n < 10 then [Digit(n)] else Decimal(n / 10) + [Digit(n % 10)]
  }

  /** Reads a string of decimal digits back as a number (the inverse of `Decimal`). */
  function ParseDecimal(s: string): nat
    requires AllDigits(s)
  {
    if |s| == 0 then 0 else ParseDecimal(s[..|s| - 1]) * 10 + DigitValue(s[|s| - 1])
  }

  /** The decimal text of a value determines the value: the search compares exactly what
      `toString` prints. */
  lemma {:induction false} ParseDecimalInvertsDecimal(n: nat)
    ensures ParseDecimal(Decimal(n)) == n
    decreases n
  {
    var s := Decimal(n);
    if n < 10 {
      assert DigitValue(Digit(n)) == n;
    } else {
      ParseDecimalInvertsDecimal(n / 10);
      assert s[..|s| - 1] == Decimal(n / 10);
      assert DigitValue(Digit(n % 10)) == n % 10;
    }
  }

  /** `v.toString()` for any integer: a minus sign before the digits of a negative value. */
  function Text(v: int): (r: string)
    ensures |r| >= 1
    ensures r[0] == '-' <==> v < 0
    ensures v >= 0 ==> AllDigits(r) && (r[0] == '0' ==> r == "0")
    ensures v < 0 ==> |r| >= 2 && AllDigits(r[1..]) && r[1] != '0'
  {
    if v < 0 then "-" + Decimal(-v) else Decimal(v)
  }

  /** Reading the digits of `Text(v)` back, after the sign, gives the magnitude of `v`. */
  lemma TextRoundTrip(v: int)
    ensures v >= 0 ==> ParseDecimal(Text(v)) == v
    ensures v < 0 ==> ParseDecimal(Text(v)[1..]) == -v
  {
    if v < 0 {
      assert Text(v)[1..] == Decimal(-v);
      ParseDecimalInvertsDecimal(-v);
    } else {
      ParseDecimalInvertsDecimal(v);
    }
  }

  /** Distinct values print distinct texts. */
  lemma TextInjective(v: int, w: int)
    ensures Text(v) == Text(w) <==> v == w
  {
    if Text(v) == Text(w) {
      TextRoundTrip(v);
      TextRoundTrip(w);
    }
  }

  /** `pat` occurs in `text` starting at position `i`. */
  predicate OccursAt(text: string, pat: string, i: int)
  {
    0 <= i && i + |pat| <= |text| && text[i..i + |pat|] == pat
  }

  /** `text.includes(pat)`: tries every start position from the left. */
  function Contains(text: string, pat: string): (r: bool)
    ensures |pat| == 0 ==> r
    ensures r ==> |pat| <= |text|
  {
    if |pat| > |text| then false
    else if text[..|pat|] == pat then true
    else Contains(text[1..], pat)
  }

  /** `Contains` finds an occurrence exactly when there is one. */
  lemma {:induction false} ContainsIff(text: string, pat: string)
    ensures Contains(text, pat) <==> exists i :: OccursAt(text, pat, i)
    decreases |text|
  {
    if |pat| > |text| {
      assert forall i :: !OccursAt(text, pat, i);
    } else if text[..|pat|] == pat {
      assert OccursAt(text, pat, 0);
    } else {
      ContainsIff(text[1..], pat);
      assert !OccursAt(text, pat, 0);
      if Contains(text[1..], pat) {
        var i :| OccursAt(text[1..], pat, i);
        assert text[1..][i..i + |pat|] == text[i + 1..i + 1 + |pat|];
        assert OccursAt(text, pat, i + 1);
      }
      if exists i :: OccursAt(text, pat, i) {
        var i :| OccursAt(text, pat, i);
        assert i >= 1;
        assert text[1..][i - 1..i - 1 + |pat|] == text[i..i + |pat|];
        assert OccursAt(text[1..], pat, i - 1);
      }
    }
  }

  /** The search both sides apply to an item. */
  predicate Matches(x: Item, term: string)
  {
    Contains(Text(x.value), term)
  }

  function MatchesTerm(term: string): Item -> bool
  {
    x => Matches(x, term)
  }

  /** An empty term matches every item, so filtering by it changes nothing. */
  lemma EmptyTermKeepsAll(s: seq<Item>)
    ensures Filter(MatchesTerm(""), s) == s
  {
    FilterKeepsAll(MatchesTerm(""), s);
  }

  /** No two items of `s` share an id. */
  predicate DistinctIds(s: seq<Item>)
  {
    forall i, j :: 0 <= i < j < |s| ==> s[i].id != s[j].id
  }

  /** In a sequence with distinct ids every element occurs once. */
  lemma DistinctIdsCountOne(s: seq<Item>, p: nat)
    requires DistinctIds(s) && p < |s|
    ensures multiset(s)[s[p]] == 1
  {
    assert s == s[..p] + [s[p]] + s[p + 1..];
    assert s[p] !in s[..p] by {
      forall q | 0 <= q < p
        ensures s[..p][q] != s[p]
      {
        assert s[..p][q] == s[q];
      }
    }
    assert s[p] !in s[p + 1..] by {
      var rest := s[p + 1..];
      forall q | 0 <= q < |rest|
        ensures rest[q] != s[p]
      {
        assert rest[q] == s[p + 1 + q];
      }
    }
  }

  /** Rearranging a sequence keeps its ids distinct. */
  lemma PermutationKeepsDistinctIds(a: seq<Item>, b: seq<Item>)
    requires multiset(a) == multiset(b) && DistinctIds(b)
    ensures DistinctIds(a)
  {
    forall i, j | 0 <= i < j < |a|
      ensures a[i].id != a[j].id
    {
      if a[i].id == a[j].id {
        assert a[i] in multiset(b) && a[j] in multiset(b);
        var p :| 0 <= p < |b| && b[p] == a[i];
        var q :| 0 <= q < |b| && b[q] == a[j];
        if a[i] == a[j] {
          CountAtLeastTwo(a, i, j);
          DistinctIdsCountOne(b, p);
        }
        assert false;
      }
    }
  }

  /** Ids strictly increase along `s`. */
  predicate Ascending(s: seq<Item>)
  {
    forall i, j :: 0 <= i < j < |s| ==> s[i].id < s[j].id
  }

  /** `s.map(item => item.id)`. */
  function Ids(s: seq<Item>): (r: seq<int>)
    ensures |r| == |s|
    ensures forall i :: 0 <= i < |s| ==> r[i] == s[i].id
  {
    seq(|s|, i requires 0 <= i < |s| => s[i].id)
  }

  /** The ids listed are the ids of the items. */
  lemma IdsMembers(s: seq<Item>)
    ensures forall id :: id in Ids(s) <==> exists x :: x in s && x.id == id
  {
    var r := Ids(s);
    forall id | id in r
      ensures exists x :: x in s && x.id == id
    {
      var i :| 0 <= i < |r| && r[i] == id;
      assert s[i] in s;
    }
    forall id | exists x :: x in s && x.id == id
      ensures id in r
    {
      var x :| x in s && x.id == id;
      var i :| 0 <= i < |s| && s[i] == x;
      assert r[i] == id;
    }
  }

  function IdSet(s: seq<Item>): set<int>
  {
    set x | x in s :: x.id
  }

  /** The ids of a non-empty sequence: its head's id and the ids of its tail. */
  lemma IdSetCons(s: seq<Item>)
    requires |s| > 0
    ensures IdSet(s) == {s[0].id} + IdSet(s[1..])
  {
    assert s == [s[0]] + s[1..];
    assert forall x :: x in s <==> x == s[0] || x in s[1..];
  }

  /** Filtering keeps an ascending sequence ascending. */
  lemma {:induction false} FilterKeepsAscending(p: Item -> bool, s: seq<Item>)
    requires Ascending(s)
    ensures Ascending(Filter(p, s))
    decreases |s|
  {
    if |s| > 0 {
      var tail := s[1..];
      AscendingTail(s);
      FilterKeepsAscending(p, tail);
      FilterCons(p, s[0], tail);
      assert [s[0]] + tail == s;
      if p(s[0]) {
        AscendingCons(s[0], Filter(p, tail));
      }
    }
  }

  /** The tail of an ascending sequence is ascending and lies above its head. */
  lemma AscendingTail(s: seq<Item>)
    requires Ascending(s) && |s| > 0
    ensures Ascending(s[1..])
    ensures forall x :: x in s[1..] ==> s[0].id < x.id
  {
    var tail := s[1..];
    forall i, j | 0 <= i < j < |tail|
      ensures tail[i].id < tail[j].id
    {
      assert tail[i] == s[i + 1] && tail[j] == s[j + 1];
    }
    forall x | x in tail
      ensures s[0].id < x.id
    {
      var k :| 0 <= k < |tail| && tail[k] == x;
      assert s[k + 1] == x;
    }
  }

  /** An item whose id is below every id of an ascending sequence may lead it. */
  lemma AscendingCons(x: Item, rest: seq<Item>)
    requires Ascending(rest)
    requires forall y :: y in rest ==> x.id < y.id
    ensures Ascending([x] + rest)
  {
    var r := [x] + rest;
    forall i, j | 0 <= i < j < |r|
      ensures r[i].id < r[j].id
    {
      assert r[j] == rest[j - 1];
      if i > 0 {
        assert r[i] == rest[i - 1];
      }
    }
  }

  /** Filtering keeps distinct ids distinct. */
  lemma {:induction false} FilterKeepsDistinctIds(p: Item -> bool, s: seq<Item>)
    requires DistinctIds(s)
    ensures DistinctIds(Filter(p, s))
    decreases |s|
  {
    if |s| > 0 {
      FilterKeepsDistinctIds(p, s[1..]);
      var rest := Filter(p, s[1..]);
      assert forall x :: x in rest ==> s[0].id != x.id by {
        forall x | x in rest
          ensures s[0].id != x.id
        {
          var k :| 0 <= k < |s[1..]| && s[1..][k] == x;
          assert s[k + 1] == x;
        }
      }
    }
  }
}
