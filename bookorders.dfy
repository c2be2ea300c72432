/** Bible book order systems: for each named system, the ordered list of
    three-letter book codes and the two lookup tables (book code to
    position 1..n, position to book code) built from it, the queries on one
    system, and the check of a given book order against every loaded
    system. */
module BookOrders {
  import opened Outcomes

  /** No code occurs twice. */
  predicate Distinct(s: seq<string>) {
    forall i, j | 0 <= i < j < |s| :: s[i] != s[j]
  }

  /** Python's `list.index`: the first position of `x` in `s`; `|s|` when
      `x` is absent (the callers test membership first). */
  function IndexOf(s: seq<string>, x: string): (r: nat)
    ensures r <= |s|
    ensures r < |s| <==> x in s
    ensures r < |s| ==> s[r] == x && x !in s[..r]
    decreases |s|
  {
    if s == [] then 0
    else if s[0] == x then 0
    else
      var r := 1 + IndexOf(s[1..], x);
      assert r < |s| ==> s[..r] == [s[0]] + s[1..][..r - 1];
      assert r == |s| ==> s == [s[0]] + s[1..];
      r
  }

  /** The set of codes in a list without repeats has as many members as
      the list. */
  lemma {:induction false} DistinctCard(s: seq<string>)
    requires Distinct(s)
    ensures |(set x | x in s)| == |s|
    decreases |s|
  {
    if s != [] {
      var n := |s| - 1;
      var p := s[..n];
      assert Distinct(p);
      DistinctCard(p);
      assert (set x | x in s) == (set x | x in p) + {s[n]};
      assert s[n] !in p;
    }
  }

  /** The positions `1..k`, which are `k` numbers. */
  function Positions(k: nat): (r: set<int>)
    ensures forall n :: n in r <==> 1 <= n <= k
    ensures |r| == k
  {
    if k == 0 then {} else Positions(k - 1) + {k}
  }

  /** One `BibleBookOrderSystem`: its name, `bookDict` (code to position),
      `numberDict` (position to code) and the ordered list. */
  datatype BookOrderSystem = BookOrderSystem(name: string, bookDict: map<string, int>,
                                             numberDict: map<int, string>, books: seq<string>)
  {
    /** The tables as the converter builds them from a list whose book ids
        are 1..n: the i-th book has position i+1 in both tables, and
        neither table holds anything else. */
    ghost predicate Valid() {
      && (forall b :: b in bookDict <==> b in books)
      && (forall n :: n in numberDict <==> 1 <= n <= |books|)
      && (forall i | 0 <= i < |books| :: bookDict[books[i]] == i + 1 && numberDict[i + 1] == books[i])
    }

    /** `numBooks()` and `__len__()`, which are the same. */
    function NumBooks(): nat {
      |books|
    }

    /** `containsBook(BBB)` and `__contains__(BBB)`, which are the same:
        the code is asserted to have three characters. */
    function ContainsBook(bbb: string): (r: Result<bool>)
      ensures r.Err? <==> |bbb| != 3
      ensures r.Err? ==> r.error == AssertionError
      ensures Valid() && r.Ok? ==> (r.value <==> bbb in bookDict)
    {
      if |bbb| != 3 then Err(AssertionError) else Ok(bbb in books)
    }

    /** `getBookOrderPosition(BBB)`: the position, counted from 1, of a
        book in the order. */
    function GetBookOrderPosition(bbb: string): (r: Result<int>)
      ensures Valid() ==> (r.Ok? <==> |bbb| == 3 && bbb in books)
      ensures r.Err? ==> r.error == (if |bbb| != 3 then AssertionError else KeyError)
      ensures Valid() && r.Ok? ==> 1 <= r.value <= |books| && books[r.value - 1] == bbb
    {
      if |bbb| != 3 then Err(AssertionError)
      else if bbb !in bookDict then Err(KeyError)
      else
        Ok(bookDict[bbb])
    }

    /** `getBookAtOrderPosition(n)`: the book at position `n` (1..n). */
    function GetBookAtOrderPosition(n: int): (r: Result<string>)
      ensures Valid() ==> (r.Ok? <==> 1 <= n <= |books|)
      ensures Valid() && r.Ok? ==> r.value == books[n - 1]
      ensures r.Err? ==> r.error == KeyError
    {
      if n in numberDict then Ok(numberDict[n]) else Err(KeyError)
    }

    /** `getNextBook(BBB)`: the book after the given one, None for the
        last book. */
    function GetNextBook(bbb: string): (r: Result<Option<string>>)
      ensures Valid() ==> (r.Ok? <==> |bbb| == 3 && bbb in books)
      ensures r.Err? ==> r.error == (if |bbb| != 3 then AssertionError else KeyError)
      ensures Valid() && r.Ok? ==>
        forall i | 0 <= i < |books| && books[i] == bbb ::
          r.value == if i + 1 < |books| then Some(books[i + 1]) else None
    {
      if |bbb| != 3 then Err(AssertionError)
      else if bbb !in bookDict then Err(KeyError)
      else
        var nextPosition := bookDict[bbb] + 1;
        Ok(if nextPosition in numberDict then Some(numberDict[nextPosition]) else None)
    }

    /** `correctlyOrdered(BBB1, BBB2)`: whether the first book comes
        before the second. */
    function CorrectlyOrdered(bbb1: string, bbb2: string): (r: Result<bool>)
      ensures Valid() ==> (r.Ok? <==> |bbb1| == 3 && |bbb2| == 3 && bbb1 in books && bbb2 in books)
      ensures r.Err? ==> r.error == (if |bbb1| != 3 || |bbb2| != 3 then AssertionError else KeyError)
      ensures Valid() && r.Ok? ==>
        forall i, j | 0 <= i < |books| && 0 <= j < |books| && books[i] == bbb1 && books[j] == bbb2 ::
          r.value == (i < j)
    {
      if |bbb1| != 3 || |bbb2| != 3 then Err(AssertionError)
      else if bbb1 !in bookDict || bbb2 !in bookDict then Err(KeyError)
      else Ok(bookDict[bbb1] < bookDict[bbb2])
    }
  }

  /** The tables of a valid system hold each book once, and the book count
      is the size of either table. */
  lemma NumBooksCounts(s: BookOrderSystem)
    requires s.Valid()
    ensures Distinct(s.books)
    ensures s.NumBooks() == |s.bookDict| == |s.numberDict|
  {
    forall i, j | 0 <= i < j < |s.books|
      ensures s.books[i] != s.books[j]
    {
      assert s.bookDict[s.books[i]] == i + 1 && s.bookDict[s.books[j]] == j + 1;
    }
    DistinctCard(s.books);
    assert s.bookDict.Keys == (set x | x in s.books);
    assert s.numberDict.Keys == Positions(|s.books|);
  }

  /** Position and book-at-position are inverse lookups. */
  lemma PositionRoundTrip(s: BookOrderSystem, bbb: string)
    requires s.Valid()
    requires s.ContainsBook(bbb) == Ok(true)
    ensures s.GetBookAtOrderPosition(s.GetBookOrderPosition(bbb).value) == Ok(bbb)
  {
  }

  lemma BookAtRoundTrip(s: BookOrderSystem, n: int)
    requires s.Valid()
    requires 1 <= n <= |s.books| && |s.books[n - 1]| == 3
    ensures s.GetBookOrderPosition(s.GetBookAtOrderPosition(n).value) == Ok(n)
  {
    NumBooksCounts(s);
  }

  /** A book is in the system exactly when it has a position. */
  lemma ContainsIffPosition(s: BookOrderSystem, bbb: string)
    requires s.Valid()
    ensures s.ContainsBook(bbb) == Ok(true) <==> s.GetBookOrderPosition(bbb).Ok?
  {
  }

  /** `correctlyOrdered` is a strict total order on the system's books. */
  lemma OrderIrreflexive(s: BookOrderSystem, bbb: string)
    requires s.Valid()
    requires s.ContainsBook(bbb) == Ok(true)
    ensures s.CorrectlyOrdered(bbb, bbb) == Ok(false)
  {
    var i :| 0 <= i < |s.books| && s.books[i] == bbb;
  }

  lemma OrderTransitive(s: BookOrderSystem, b1: string, b2: string, b3: string)
    requires s.Valid()
    requires s.CorrectlyOrdered(b1, b2) == Ok(true) && s.CorrectlyOrdered(b2, b3) == Ok(true)
    ensures s.CorrectlyOrdered(b1, b3) == Ok(true)
  {
  }

  lemma OrderTotal(s: BookOrderSystem, b1: string, b2: string)
    requires s.Valid()
    requires s.ContainsBook(b1) == Ok(true) && s.ContainsBook(b2) == Ok(true) && b1 != b2
    ensures s.CorrectlyOrdered(b1, b2) == Ok(true) <==> s.CorrectlyOrdered(b2, b1) == Ok(false)
  {
    var i :| 0 <= i < |s.books| && s.books[i] == b1;
    var j :| 0 <= j < |s.books| && s.books[j] == b2;
  }

  /** The next book comes right after the given one: after it, and with no
      book of the system in between. */
  lemma NextIsSuccessor(s: BookOrderSystem, bbb: string, next: string)
    requires s.Valid()
    requires s.GetNextBook(bbb) == Ok(Some(next)) && |next| == 3
    ensures s.CorrectlyOrdered(bbb, next) == Ok(true)
    ensures forall x | s.ContainsBook(x) == Ok(true) ::
      !(s.CorrectlyOrdered(bbb, x) == Ok(true) && s.CorrectlyOrdered(x, next) == Ok(true))
  {
    var i :| 0 <= i < |s.books| && s.books[i] == bbb;
    NumBooksCounts(s);
    assert s.books[i + 1] == next;
    forall x | s.ContainsBook(x) == Ok(true)
      ensures !(s.CorrectlyOrdered(bbb, x) == Ok(true) && s.CorrectlyOrdered(x, next) == Ok(true))
    {
      var k :| 0 <= k < |s.books| && s.books[k] == x;
    }
  }

  /** Only the last book has no next book. */
  lemma NoNextIffLast(s: BookOrderSystem, bbb: string)
    requires s.Valid()
    requires s.ContainsBook(bbb) == Ok(true)
    ensures s.GetNextBook(bbb) == Ok(None) <==> bbb == s.books[|s.books| - 1]
  {
    var i :| 0 <= i < |s.books| && s.books[i] == bbb;
    NumBooksCounts(s);
  }

  /** What `getBookOrderSystem` returns for a known system: its two
      tables and its list. */
  datatype Tables = Tables(bookDict: map<string, int>, numberDict: map<int, string>, books: seq<string>)

  /** The loaded `BibleBookOrderSystems`: `dicts` and `lists` keyed by
      system code, and `codes`, the order in which the dictionaries list
      their keys. */
  datatype Systems = Systems(codes: seq<string>, dicts: map<string, (map<string, int>, map<int, string>)>,
                             lists: map<string, seq<string>>)
  {
    /** `codes` is what iterating over `lists` yields: each key once. */
    predicate Ordered() {
      && Distinct(codes)
      && (forall c | c in lists :: c in codes)
      && (forall k | 0 <= k < |codes| :: codes[k] in lists)
    }

    /** The systems as the converter builds them: the same keys in both
        dictionaries, and valid tables for each. */
    ghost predicate Valid() {
      && Ordered()
      && dicts.Keys == lists.Keys
      && forall c | c in dicts && c in lists :: BookOrderSystem(c, dicts[c].0, dicts[c].1, lists[c]).Valid()
    }

    /** `__len__`: the number of systems, after asserting that both
        dictionaries have the same size. */
    function Len(): (r: Result<nat>)
      ensures r.Err? ==> r.error == AssertionError
      ensures r.Ok? ==> r.value == |dicts| == |lists|
    {
      if |dicts| != |lists| then Err(AssertionError) else Ok(|dicts|)
    }

    /** `__contains__(name)`. */
    function Contains(name: string): (r: bool)
      ensures Ordered() ==> (r <==> name in codes)
    {
      name in lists
    }

    /** `getAvailableBookOrderSystemNames()`. */
    function AvailableNames(): (r: seq<string>)
      ensures Ordered() ==> Distinct(r) && forall c :: c in r <==> Contains(c)
    {
      codes
    }

    /** `getBookOrderSystem(name)`: None for an unknown system (the source
        logs an error and returns nothing); a name in `dicts` but not in
        `lists` is a KeyError. */
    function GetBookOrderSystem(name: string): (r: Result<Option<Tables>>)
      ensures r.Err? ==> r.error == KeyError
      ensures Valid() ==> r.Ok? && (r.value.Some? <==> name in codes)
      ensures Valid() && r.Ok? && r.value.Some? ==>
        var t := r.value.value;
        t.books == lists[name] && BookOrderSystem(name, t.bookDict, t.numberDict, t.books).Valid()
    {
      if name !in dicts then Ok(None)
      else if name !in lists then Err(KeyError)
      else Ok(Some(Tables(dicts[name].0, dicts[name].1, lists[name])))
    }

    /** `numBooks(name)`. */
    function NumBooks(name: string): (r: Result<nat>)
      ensures r.Ok? <==> name in lists
      ensures r.Err? ==> r.error == KeyError
    {
      if name in lists then Ok(|lists[name]|) else Err(KeyError)
    }

    /** `containsBook(name, BBB)`; unlike the single system's query it
        does not check the code's length. */
    function ContainsBook(name: string, bbb: string): (r: Result<bool>)
      ensures r.Ok? <==> name in lists
      ensures r.Err? ==> r.error == KeyError
    {
      if name in lists then Ok(bbb in lists[name]) else Err(KeyError)
    }

    /** `getBookOrderList(name)`. */
    function GetBookOrderList(name: string): (r: Result<seq<string>>)
      ensures r.Ok? <==> name in lists
      ensures r.Err? ==> r.error == KeyError
    {
      if name in lists then Ok(lists[name]) else Err(KeyError)
    }
  }

  /** `BibleBookOrderSystem(name)`: a system built from what
      `getBookOrderSystem` returns; None where unpacking its missing
      result raises. */
  function OpenSystem(systems: Systems, name: string): (r: Option<BookOrderSystem>)
    ensures systems.Valid() ==> (r.Some? <==> name in systems.codes)
    ensures systems.Valid() && r.Some? ==> r.value.Valid() && r.value.name == name
  {
    match systems.GetBookOrderSystem(name)
    case Ok(Some(t)) => Some(BookOrderSystem(name, t.bookDict, t.numberDict, t.books))
    case _ => None
  }

  /** The number of loaded systems is the number of system codes. */
  lemma LenCounts(systems: Systems)
    requires systems.Valid()
    ensures systems.Len() == Ok(|systems.codes|)
  {
    DistinctCard(systems.codes);
    assert systems.lists.Keys == (set x | x in systems.codes);
  }

  /** The collection's queries on a named system agree with the queries
      of the system opened under that name. */
  lemma OpenedAgrees(systems: Systems, name: string, s: BookOrderSystem)
    requires systems.Valid()
    requires OpenSystem(systems, name) == Some(s)
    ensures systems.NumBooks(name) == Ok(s.NumBooks())
    ensures systems.GetBookOrderList(name) == Ok(s.books)
    ensures forall bbb | |bbb| == 3 :: systems.ContainsBook(name, bbb) == s.ContainsBook(bbb)
  {
  }

  /** The subset test of `checkBookOrderSystem` for one system, from a
      last index on: it fails at the first book the system lacks, or at
      the first book found before the previous one. */
  function SubsetAfter(list: seq<string>, scheme: seq<string>, lastIndex: int): bool
    decreases |scheme|
  {
    if scheme == [] then true
    else if scheme[0] !in list then false
    else
      var index := IndexOf(list, scheme[0]);
      if index < lastIndex then false else SubsetAfter(list, scheme[1..], index)
  }

  /** Every book of the scheme is in the list, and consecutive books of
      the scheme are found at non-decreasing positions. */
  predicate InOrder(list: seq<string>, scheme: seq<string>) {
    && (forall k | 0 <= k < |scheme| :: scheme[k] in list)
    && (forall k | 0 < k < |scheme| :: IndexOf(list, scheme[k - 1]) <= IndexOf(list, scheme[k]))
  }

  /** The loop's test is exactly the order-preserving containment. */
  lemma {:induction false} SubsetAfterIff(list: seq<string>, scheme: seq<string>, lastIndex: int)
    ensures SubsetAfter(list, scheme, lastIndex) <==>
            InOrder(list, scheme) && (scheme != [] ==> lastIndex <= IndexOf(list, scheme[0]))
    decreases |scheme|
  {
    if scheme != [] && scheme[0] in list {
      var index := IndexOf(list, scheme[0]);
      var tail := scheme[1..];
      SubsetAfterIff(list, tail, index);
      assert forall k | 0 <= k < |tail| :: tail[k] == scheme[k + 1];
      if InOrder(list, tail) && (tail != [] ==> index <= IndexOf(list, tail[0])) {
        assert forall k | 0 < k < |scheme| :: IndexOf(list, scheme[k - 1]) <= IndexOf(list, scheme[k]) by {
          forall k | 0 < k < |scheme|
            ensures IndexOf(list, scheme[k - 1]) <= IndexOf(list, scheme[k])
          {
            if k > 1 {
              assert scheme[k - 1] == tail[k - 2] && scheme[k] == tail[k - 1];
            }
          }
        }
      }
      if InOrder(list, scheme) {
        assert InOrder(list, tail) by {
          forall k | 0 < k < |tail|
            ensures IndexOf(list, tail[k - 1]) <= IndexOf(list, tail[k])
          {
            assert tail[k - 1] == scheme[k] && tail[k] == scheme[k + 1];
          }
        }
      }
    }
  }

  lemma SubsetIff(list: seq<string>, scheme: seq<string>)
    ensures SubsetAfter(list, scheme, -1) <==> InOrder(list, scheme)
  {
    SubsetAfterIff(list, scheme, -1);
  }

  /** Non-decreasing positions for consecutive books means non-decreasing
      positions for any two books. */
  lemma {:induction false} InOrderPairs(list: seq<string>, scheme: seq<string>, i: nat, j: nat)
    requires InOrder(list, scheme)
    requires i <= j < |scheme|
    ensures IndexOf(list, scheme[i]) <= IndexOf(list, scheme[j])
    decreases j - i
  {
    if i < j {
      InOrderPairs(list, scheme, i, j - 1);
    }
  }

  /** In a list without repeats, a book's position is where it stands. */
  lemma IndexOfDistinct(list: seq<string>, k: nat)
    requires Distinct(list) && k < |list|
    ensures IndexOf(list, list[k]) == k
  {
  }

  /** A list without repeats contains itself in order, so an exact match
      would also pass the subset test. */
  lemma ExactIsSubset(list: seq<string>)
    requires Distinct(list)
    ensures SubsetAfter(list, list, -1)
  {
    forall k | 0 <= k < |list|
      ensures IndexOf(list, list[k]) == k
    {
      IndexOfDistinct(list, k);
    }
    SubsetIff(list, list);
  }

  /** A scheme contained in order in a valid system lists any two of its
      different books in the system's order. */
  lemma SubsetRespectsOrder(s: BookOrderSystem, scheme: seq<string>, i: nat, j: nat)
    requires s.Valid() && InOrder(s.books, scheme)
    requires i < j < |scheme| && scheme[i] != scheme[j] && |scheme[i]| == 3 && |scheme[j]| == 3
    ensures s.CorrectlyOrdered(scheme[i], scheme[j]) == Ok(true)
  {
    InOrderPairs(s.books, scheme, i, j);
    var p, q := IndexOf(s.books, scheme[i]), IndexOf(s.books, scheme[j]);
    assert s.books[p] == scheme[i] && s.books[q] == scheme[j];
  }

  /** A system matches when its list equals the scheme exactly or, failing
      that, passes the subset test; it is counted once either way. */
  predicate Matches(list: seq<string>, scheme: seq<string>) {
    list == scheme || SubsetAfter(list, scheme, -1)
  }

  /** The codes of the matching systems, in the order they are visited. */
  function Matched(lists: map<string, seq<string>>, codes: seq<string>, scheme: seq<string>): seq<string>
    requires forall k | 0 <= k < |codes| :: codes[k] in lists
    decreases |codes|
  {
    if codes == [] then []
    else
      var n := |codes| - 1;
      Matched(lists, codes[..n], scheme) + (if Matches(lists[codes[n]], scheme) then [codes[n]] else [])
  }

  /** The matched codes are the visited codes whose systems match, each
      once, in the order visited. */
  lemma {:induction false} MatchedMembers(lists: map<string, seq<string>>, codes: seq<string>, scheme: seq<string>)
    requires forall k | 0 <= k < |codes| :: codes[k] in lists
    requires Distinct(codes)
    ensures forall c :: c in Matched(lists, codes, scheme) <==> c in codes && Matches(lists[c], scheme)
    ensures Distinct(Matched(lists, codes, scheme))
    decreases |codes|
  {
    if codes != [] {
      var n := |codes| - 1;
      var p := codes[..n];
      assert Distinct(p);
      MatchedMembers(lists, p, scheme);
      assert codes == p + [codes[n]];
      assert codes[n] !in p;
    }
  }

  /** For valid systems an exact match always passes the subset test too,
      so the systems counted are exactly those containing the scheme in
      order. */
  lemma MatchedValid(systems: Systems, scheme: seq<string>)
    requires systems.Valid()
    ensures forall c :: c in Matched(systems.lists, systems.codes, scheme) <==>
                        c in systems.codes && InOrder(systems.lists[c], scheme)
  {
    MatchedMembers(systems.lists, systems.codes, scheme);
    forall c | c in systems.codes
      ensures Matches(systems.lists[c], scheme) <==> InOrder(systems.lists[c], scheme)
    {
      var s := BookOrderSystem(c, systems.dicts[c].0, systems.dicts[c].1, systems.lists[c]);
      assert s.Valid();
      NumBooksCounts(s);
      if systems.lists[c] == scheme {
        ExactIsSubset(scheme);
      }
      SubsetIff(systems.lists[c], scheme);
    }
  }

  predicate AllIn(codes: seq<string>, lists: map<string, seq<string>>) {
    forall k | 0 <= k < |codes| :: codes[k] in lists
  }

  /** Visiting one more code extends the matched codes by that code when
      its system matches. */
  lemma MatchedStep(lists: map<string, seq<string>>, codes: seq<string>, scheme: seq<string>, i: nat)
    requires forall k | 0 <= k < |codes| :: codes[k] in lists
    requires i < |codes|
    ensures AllIn(codes[..i], lists) && AllIn(codes[..i + 1], lists)
    ensures Matched(lists, codes[..i + 1], scheme)
            == Matched(lists, codes[..i], scheme) + (if Matches(lists[codes[i]], scheme) then [codes[i]] else [])
  {
    assert codes[..i + 1][..i] == codes[..i];
  }

  /** The inner loop of `checkBookOrderSystem`: whether the scheme is an
      order-preserving subset of `list`. */
  method IsSubset(list: seq<string>, scheme: seq<string>) returns (isSubset: bool)
    ensures isSubset == SubsetAfter(list, scheme, -1)
    ensures isSubset == InOrder(list, scheme)
  {
    SubsetIff(list, scheme);
    var lastIndex: int := -1;
    isSubset := true;
    var k := 0;
    while k < |scheme|
      invariant 0 <= k <= |scheme|
      invariant SubsetAfter(list, scheme, -1) == SubsetAfter(list, scheme[k..], lastIndex)
    {
      var bbb := scheme[k];
      if bbb !in list {
        isSubset := false;
        break;
      }
      var index := IndexOf(list, bbb);
      if index < lastIndex {
        isSubset := false;
        break;
      }
      lastIndex := index;
      assert scheme[k..][1..] == scheme[k + 1..];
      k := k + 1;
    }
  }

  /** `checkBookOrderSystem(thisSystemName, bookOrderSchemeToCheck)`: the
      number of loaded systems that match the scheme, with their codes.
      The name, the scheme and the loaded systems are asserted to be
      non-empty. */
  method CheckBookOrderSystem(systems: Systems, thisSystemName: string, scheme: seq<string>)
    returns (r: Result<nat>, matched: seq<string>)
    requires systems.Ordered()
    ensures r.Err? <==> thisSystemName == "" || scheme == [] || |systems.lists| == 0
    ensures r.Err? ==> r.error == AssertionError && matched == []
    ensures r.Ok? ==> matched == Matched(systems.lists, systems.codes, scheme) && r.value == |matched|
  {
    matched := [];
    if thisSystemName == "" || scheme == [] || |systems.lists| == 0 {
      return Err(AssertionError), matched;
    }
    var exactMatchCount, subsetMatchCount := 0, 0;
    var i := 0;
    assert forall k | 0 <= k < |systems.codes| :: systems.codes[k] in systems.lists;
    MatchedStep(systems.lists, systems.codes, scheme, 0);
    while i < |systems.codes|
      invariant 0 <= i <= |systems.codes|
      invariant AllIn(systems.codes[..i], systems.lists)
      invariant matched == Matched(systems.lists, systems.codes[..i], scheme)
      invariant exactMatchCount + subsetMatchCount == |matched|
    {
      MatchedStep(systems.lists, systems.codes, scheme, i);
      var code := systems.codes[i];
      var list := systems.lists[code];
      if list == scheme {
        exactMatchCount := exactMatchCount + 1;
        matched := matched + [code];
      } else {
        var isSubset := IsSubset(list, scheme);
        if isSubset {
          subsetMatchCount := subsetMatchCount + 1;
          matched := matched + [code];
        }
      }
      i := i + 1;
    }
    assert systems.codes[..i] == systems.codes;
    r := Ok(exactMatchCount + subsetMatchCount);
  }
}
