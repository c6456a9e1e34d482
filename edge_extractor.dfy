/** The solver-list crawler and the problem similarity graph of `edge_extractor.py`.

    The browser is replaced by the pages it would show: a problem's "status" listing is a
    sequence of pages, page `n` (numbered from 1) being `pages[n - 1]`, and every page past
    the end showing the judge's error marker. */
module EdgeExtractor {
  import opened Wrappers
  import opened Seqs
  import opened Dicts

  // ---------------------------------------------------------------------------------------
  // Fetching the solvers of one problem
  // ---------------------------------------------------------------------------------------

  /** One page of a problem's status listing: the judge's error marker, or a table whose rows
      carry a user id each. */
  datatype StatusPage = ErrorPage | Table(userIds: seq<string>)

  function PageAt(pages: seq<StatusPage>, pageNum: int): StatusPage
  {
    if 1 <= pageNum <= |pages| then pages[pageNum - 1] else ErrorPage
  }

  /** `_get_solved_user_list_at_page`: no list at the error marker or at an empty table. */
  function SolvedUsersAtPage(page: StatusPage): (r: Option<seq<string>>)
    ensures r.None? <==> page.ErrorPage? || |page.userIds| == 0
    ensures r.Some? ==> r.value == page.userIds
  {
    match page
    case ErrorPage => None
    case Table(userIds) => if |userIds| == 0 then None else Some(userIds)
  }

  ghost predicate EndsListing(pages: seq<StatusPage>, pageNum: int)
  {
    SolvedUsersAtPage(PageAt(pages, pageNum)).None?
  }

  /** The number of the first page, from `pageNum` on, that ends the listing. */
  function FirstEndFrom(pages: seq<StatusPage>, pageNum: nat): (k: nat)
    requires 1 <= pageNum <= |pages| + 1
    ensures pageNum <= k <= |pages| + 1
    ensures EndsListing(pages, k)
    ensures forall n :: pageNum <= n < k ==> !EndsListing(pages, n)
    decreases |pages| + 1 - pageNum
  {
    if SolvedUsersAtPage(PageAt(pages, pageNum)).None? then pageNum else FirstEndFrom(pages, pageNum + 1)
  }

  /** The number of the first page that ends the listing. */
  function FirstEnd(pages: seq<StatusPage>): (k: nat)
    ensures 1 <= k <= |pages| + 1
    ensures EndsListing(pages, k)
    ensures forall n :: 1 <= n < k ==> !EndsListing(pages, n)
  {
    FirstEndFrom(pages, 1)
  }

  function UserIdsOf(page: StatusPage): seq<string>
  {
    if page.Table? then page.userIds else []
  }

  function UserIdsOfPages(pages: seq<StatusPage>): (r: seq<seq<string>>)
    ensures |r| == |pages|
  {
    seq(|pages|, i requires 0 <= i < |pages| => UserIdsOf(pages[i]))
  }

  /** What `get_solved_user_list` returns: the user ids of pages 1 .. k-1 in page order, where
      page k is the first page that ends the listing. */
  function SolvedUserList(pages: seq<StatusPage>): seq<string>
  {
    Flatten(UserIdsOfPages(pages[..FirstEnd(pages) - 1]))
  }

  /** `get_solved_user_list`: read pages 1, 2, 3, ... and concatenate them until a page ends
      the listing. */
  method GetSolvedUserList(pages: seq<StatusPage>) returns (userIds: seq<string>)
    ensures userIds == SolvedUserList(pages)
  {
    userIds := [];
    var pageNum := 1;
    while true
      invariant 1 <= pageNum <= FirstEnd(pages)
      invariant userIds == Flatten(UserIdsOfPages(pages[..pageNum - 1]))
      decreases FirstEnd(pages) - pageNum
    {
      var ret := SolvedUsersAtPage(PageAt(pages, pageNum));
      if ret.None? {
        assert EndsListing(pages, pageNum);
        break;
      }
      assert pages[..pageNum][..pageNum - 1] == pages[..pageNum - 1];
      assert UserIdsOfPages(pages[..pageNum]) == UserIdsOfPages(pages[..pageNum - 1]) + [ret.value];
      userIds := userIds + ret.value;
      pageNum := pageNum + 1;
    }
  }

  /** Pages after the first one that ends the listing are never looked at. */
  lemma SolvedUserListIgnoresLaterPages(pages: seq<StatusPage>, later: seq<StatusPage>)
    requires FirstEnd(pages) <= |pages|
    ensures SolvedUserList(pages + later) == SolvedUserList(pages)
  {
    var k := FirstEnd(pages);
    forall n | 1 <= n <= k
      ensures PageAt(pages + later, n) == PageAt(pages, n)
    {
    }
    var k' := FirstEnd(pages + later);
    assert EndsListing(pages + later, k);
    if k' < k {
      assert EndsListing(pages, k');
    }
    assert (pages + later)[..k - 1] == pages[..k - 1];
  }

  // ---------------------------------------------------------------------------------------
  // Fetching every configured problem (`save_solved_users`)
  // ---------------------------------------------------------------------------------------

  /** The entries assigned by `save_solved_users`, one per configured id, in order; `views[i]`
      is the status listing the browser sees while fetching `probIds[i]`. */
  function FetchEntries(probIds: seq<int>, views: seq<seq<StatusPage>>): seq<(int, seq<string>)>
    requires |views| == |probIds|
  {
    seq(|probIds|, i requires 0 <= i < |probIds| => (probIds[i], SolvedUserList(views[i])))
  }

  function SolvedUsersData(probIds: seq<int>, views: seq<seq<StatusPage>>): Dict<int, seq<string>>
    requires |views| == |probIds|
  {
    FromEntries(FetchEntries(probIds, views))
  }

  /** The dictionary-building loop of `save_solved_users`: `data[prob_id] = user_ids` for each
      configured id in turn. */
  method SaveSolvedUsers(probIds: seq<int>, views: seq<seq<StatusPage>>) returns (data: Dict<int, seq<string>>)
    requires |views| == |probIds|
    ensures data == SolvedUsersData(probIds, views)
  {
    data := Dict([], map[]);
    for i := 0 to |probIds|
      invariant data == FromEntries(FetchEntries(probIds, views)[..i])
    {
      var userIds := GetSolvedUserList(views[i]);
      assert FetchEntries(probIds, views)[..i + 1][..i] == FetchEntries(probIds, views)[..i];
      data := data.Put(probIds[i], userIds);
    }
    assert FetchEntries(probIds, views)[..|probIds|] == FetchEntries(probIds, views);
  }

  /** The saved dictionary has exactly the configured ids as keys, in order of first
      configuration, and a repeated id keeps the list of its last fetch. */
  lemma SolvedUsersDataShape(probIds: seq<int>, views: seq<seq<StatusPage>>)
    requires |views| == |probIds|
    ensures SolvedUsersData(probIds, views).Valid()
    ensures SolvedUsersData(probIds, views).order == Dedup(probIds)
    ensures forall id :: id in SolvedUsersData(probIds, views).items <==> id in probIds
    ensures forall i :: 0 <= i < |probIds| && (forall j :: i < j < |probIds| ==> probIds[j] != probIds[i]) ==>
      SolvedUsersData(probIds, views).items[probIds[i]] == SolvedUserList(views[i])
  {
    var entries := FetchEntries(probIds, views);
    assert Keys(entries) == probIds;
    FromEntriesOrder(entries);
    forall i | 0 <= i < |probIds| && (forall j :: i < j < |probIds| ==> probIds[j] != probIds[i])
      ensures SolvedUsersData(probIds, views).items[probIds[i]] == SolvedUserList(views[i])
    {
      FromEntriesLastWins(entries, i);
    }
  }

  // ---------------------------------------------------------------------------------------
  // The connection rule (`can_connect`)
  // ---------------------------------------------------------------------------------------

  type Positive = n: int | n > 0 witness 1

  /** The threshold alpha, held exactly as the fraction num / den. */
  datatype Alpha = Alpha(num: int, den: Positive)

  function AlphaValue(alpha: Alpha): real
  {
    alpha.num as real / alpha.den as real
  }

  /** |S1 ∩ S2| / (|S1| + |S2|): the overlap of two solver sets. */
  function OverlapRatio(users1: set<string>, users2: set<string>): real
    requires |users1| + |users2| > 0
  {
    |users1 * users2| as real / (|users1| + |users2|) as real
  }

  lemma CrossMultiply(c: int, n: int, a: int, d: int)
    requires n > 0 && d > 0
    ensures (c as real / n as real >= a as real / d as real) <==> c * d >= a * n
  {
    var x, y := c as real / n as real, a as real / d as real;
    assert x * n as real == c as real;
    assert y * d as real == a as real;
    assert (n * d) as real == n as real * d as real;
    assert x * (n * d) as real == (c * d) as real;
    assert y * (n * d) as real == (a * n) as real;
    if x >= y {
      assert x * (n * d) as real >= y * (n * d) as real;
    } else {
      assert x * (n * d) as real < y * (n * d) as real;
    }
  }

  /** `n` copies of `a` added up. The connection test below multiplies through this function,
      so that reasoning about edge lists never meets a product of two unknowns; `TimesIsProduct`
      states that it is `a * n`. */
  function Times(a: int, n: nat): int
  {
    if n == 0 then 0 else Times(a, n - 1) + a
  }

  lemma {:induction false} TimesIsProduct(a: int, n: nat)
    ensures Times(a, n) == a * n
  {
    if n > 0 {
      TimesIsProduct(a, n - 1);
    }
  }

  /** `can_connect`: whether the two problems' solver sets overlap by at least alpha, compared
      without division as |S1 ∩ S2| * den >= num * (|S1| + |S2|). The source divides by
      |S1| + |S2| and looks both ids up, so both must be known and not both empty. */
  function CanConnect(usersSet: map<int, set<string>>, alpha: Alpha, probId1: int, probId2: int): bool
    requires probId1 in usersSet && probId2 in usersSet
    requires |usersSet[probId1]| + |usersSet[probId2]| > 0
  {
    var users1, users2 := usersSet[probId1], usersSet[probId2];
    Times(alpha.den, |users1 * users2|) >= Times(alpha.num, |users1| + |users2|)
  }

  /** The cross-multiplied test is the source's `common_cnt / (len1 + len2) >= alpha`. */
  lemma CanConnectIsOverlapThreshold(usersSet: map<int, set<string>>, alpha: Alpha, probId1: int, probId2: int)
    requires probId1 in usersSet && probId2 in usersSet
    requires |usersSet[probId1]| + |usersSet[probId2]| > 0
    ensures CanConnect(usersSet, alpha, probId1, probId2) <==>
      OverlapRatio(usersSet[probId1], usersSet[probId2]) >= AlphaValue(alpha)
  {
    var users1, users2 := usersSet[probId1], usersSet[probId2];
    TimesIsProduct(alpha.den, |users1 * users2|);
    TimesIsProduct(alpha.num, |users1| + |users2|);
    CrossMultiply(|users1 * users2|, |users1| + |users2|, alpha.num, alpha.den);
  }

  /** The connection rule does not depend on the order of the two problems. */
  lemma CanConnectSymmetric(usersSet: map<int, set<string>>, alpha: Alpha, probId1: int, probId2: int)
    requires probId1 in usersSet && probId2 in usersSet
    requires |usersSet[probId1]| + |usersSet[probId2]| > 0
    ensures CanConnect(usersSet, alpha, probId1, probId2) == CanConnect(usersSet, alpha, probId2, probId1)
  {
    assert usersSet[probId1] * usersSet[probId2] == usersSet[probId2] * usersSet[probId1];
  }

  lemma IntersectionCardinality(users1: set<string>, users2: set<string>)
    ensures |users1 * users2| <= |users1| && |users1 * users2| <= |users2|
  {
    assert users1 == (users1 * users2) + (users1 - users2);
    assert users2 == (users1 * users2) + (users2 - users1);
  }

  /** The overlap ratio always lies between 0 and 1/2. */
  lemma OverlapRatioBounds(users1: set<string>, users2: set<string>)
    requires |users1| + |users2| > 0
    ensures 0.0 <= OverlapRatio(users1, users2) <= 0.5
  {
    IntersectionCardinality(users1, users2);
    var c, n := |users1 * users2|, |users1| + |users2|;
    assert 2 * c <= n;
    CrossMultiply(1, 2, c, n);
  }

  // ---------------------------------------------------------------------------------------
  // The edge list (`extract_edges`)
  // ---------------------------------------------------------------------------------------

  function ToSet(users: seq<string>): set<string>
  {
    set u | u in users
  }

  /** The `users_set` dictionary: each fetched list as a set. */
  function UserSets(data: map<int, seq<string>>): map<int, set<string>>
  {
    map id | id in data :: ToSet(data[id])
  }

  /** `can_connect` can be evaluated, without a missing key or a division by zero, for every
      pair of configured positions `idx1 < idx2`. */
  ghost predicate PairsDefined(probIds: seq<int>, usersSet: map<int, set<string>>)
  {
    forall idx1, idx2 :: 0 <= idx1 < idx2 < |probIds| ==>
      probIds[idx1] in usersSet && probIds[idx2] in usersSet &&
      |usersSet[probIds[idx1]]| + |usersSet[probIds[idx2]]| > 0
  }

  /** `can_connect` at two ids where the source can evaluate it; false where it would raise,
      which `PairsDefined` rules out for every pair the loops visit. */
  predicate Connects(usersSet: map<int, set<string>>, alpha: Alpha, probId1: int, probId2: int)
  {
    probId1 in usersSet && probId2 in usersSet && |usersSet[probId1]| + |usersSet[probId2]| > 0 &&
    CanConnect(usersSet, alpha, probId1, probId2)
  }

  /** Whether two problem ids are joined. The loops below are stated for any such rule; the
      one `extract_edges` applies is `ConnectRule`. */
  type Rule = (int, int) -> bool

  function ConnectRule(usersSet: map<int, set<string>>, alpha: Alpha): Rule
  {
    (p: int, q: int) => Connects(usersSet, alpha, p, q)
  }

  // ---------------------------------------------------------------------------------------
  // The edge list: the connected pairs of positions, each as two edges
  // ---------------------------------------------------------------------------------------

  /** Pairs of positions idx1 < idx2 within the configured ids. */
  ghost predicate ValidPairs(probIds: seq<int>, pairs: seq<(nat, nat)>)
  {
    forall k :: 0 <= k < |pairs| ==> pairs[k].0 < pairs[k].1 < |probIds|
  }

  /** The connected pairs (idx1, idx2') with idx1 < idx2' < idx2, idx2' ascending. */
  function RowPairs(probIds: seq<int>, conn: Rule, idx1: nat, idx2: nat): (r: seq<(nat, nat)>)
    requires idx1 < |probIds| && idx2 <= |probIds|
    ensures forall k :: 0 <= k < |r| ==> r[k].0 == idx1 < r[k].1 < idx2
    decreases idx2
  {
    if idx2 <= idx1 + 1 then []
    else
      RowPairs(probIds, conn, idx1, idx2 - 1) +
      (if conn(probIds[idx1], probIds[idx2 - 1]) then [(idx1, idx2 - 1)] else [])
  }

  /** The connected pairs whose first position is below idx1, row by row. */
  function PairsBelow(probIds: seq<int>, conn: Rule, idx1: nat): (r: seq<(nat, nat)>)
    requires idx1 <= |probIds|
    ensures ValidPairs(probIds, r)
    ensures forall k :: 0 <= k < |r| ==> r[k].0 < idx1
  {
    if idx1 == 0 then []
    else
      var below := PairsBelow(probIds, conn, idx1 - 1);
      var row := RowPairs(probIds, conn, idx1 - 1, |probIds|);
      assert forall k :: 0 <= k < |row| ==> row[k].0 == idx1 - 1;
      below + row
  }

  /** The pairs the loops have met when they reach (idx1, idx2). */
  function Met(probIds: seq<int>, conn: Rule, idx1: nat, idx2: nat): (r: seq<(nat, nat)>)
    requires idx1 < |probIds| && idx2 <= |probIds|
    ensures ValidPairs(probIds, r)
  {
    var below := PairsBelow(probIds, conn, idx1);
    var row := RowPairs(probIds, conn, idx1, idx2);
    assert forall k :: 0 <= k < |row| ==> row[k].0 == idx1 < row[k].1 < |probIds|;
    below + row
  }

  /** One step of the inner loop appends the edges of (idx1, idx2) when the pair connects. */
  lemma MetStep(probIds: seq<int>, conn: Rule, idx1: nat, idx2: nat)
    requires idx1 < idx2 < |probIds|
    ensures EdgesOf(probIds, Met(probIds, conn, idx1, idx2 + 1)) ==
      EdgesOf(probIds, Met(probIds, conn, idx1, idx2)) +
      if conn(probIds[idx1], probIds[idx2]) then [(probIds[idx1], probIds[idx2]), (probIds[idx2], probIds[idx1])] else []
  {
    var done := Met(probIds, conn, idx1, idx2);
    var below, row := PairsBelow(probIds, conn, idx1), RowPairs(probIds, conn, idx1, idx2);
    if conn(probIds[idx1], probIds[idx2]) {
      var p: (nat, nat) := (idx1, idx2);
      assert Met(probIds, conn, idx1, idx2 + 1) == below + (row + [p]);
      AppendAssoc(below, row, [p]);
      DropLast(done, p);
    } else {
      assert Met(probIds, conn, idx1, idx2 + 1) == below + (row + []);
      AppendEmpty(row);
    }
  }

  lemma ConnectRuleAt(usersSet: map<int, set<string>>, alpha: Alpha, probId1: int, probId2: int)
    requires probId1 in usersSet && probId2 in usersSet
    requires |usersSet[probId1]| + |usersSet[probId2]| > 0
    ensures ConnectRule(usersSet, alpha)(probId1, probId2) == CanConnect(usersSet, alpha, probId1, probId2)
  {
  }

  /** The inner loop's step in the terms of `extract_edges`: with `connected` the value of
      `can_connect`, appending that pair's edges (or nothing) keeps the edges met so far. */
  lemma ConnectStep(probIds: seq<int>, usersSet: map<int, set<string>>, alpha: Alpha, idx1: nat, idx2: nat,
                    connected: bool, edges: seq<(int, int)>)
    requires idx1 < idx2 < |probIds|
    requires probIds[idx1] in usersSet && probIds[idx2] in usersSet
    requires |usersSet[probIds[idx1]]| + |usersSet[probIds[idx2]]| > 0
    requires connected == CanConnect(usersSet, alpha, probIds[idx1], probIds[idx2])
    requires edges == EdgesOf(probIds, Met(probIds, ConnectRule(usersSet, alpha), idx1, idx2))
    ensures connected ==>
      edges + [(probIds[idx1], probIds[idx2])] + [(probIds[idx2], probIds[idx1])] ==
        EdgesOf(probIds, Met(probIds, ConnectRule(usersSet, alpha), idx1, idx2 + 1))
    ensures !connected ==> edges == EdgesOf(probIds, Met(probIds, ConnectRule(usersSet, alpha), idx1, idx2 + 1))
  {
    var conn := ConnectRule(usersSet, alpha);
    ConnectRuleAt(usersSet, alpha, probIds[idx1], probIds[idx2]);
    MetStep(probIds, conn, idx1, idx2);
    if connected {
      AppendTwo(edges, (probIds[idx1], probIds[idx2]), (probIds[idx2], probIds[idx1]));
    } else {
      assert edges + [] == edges;
    }
  }

  /** Every pair of positions idx1 < idx2 whose problems connect, in the order the loops meet them. */
  function ConnectedPairs(probIds: seq<int>, conn: Rule): (r: seq<(nat, nat)>)
    ensures ValidPairs(probIds, r)
  {
    PairsBelow(probIds, conn, |probIds|)
  }

  /** Each pair of positions as its forward edge followed by its reverse edge. */
  function EdgesOf(probIds: seq<int>, pairs: seq<(nat, nat)>): (r: seq<(int, int)>)
    requires ValidPairs(probIds, pairs)
    ensures |r| == 2 * |pairs|
  {
    if pairs == [] then []
    else
      var p := pairs[|pairs| - 1];
      EdgesOf(probIds, pairs[..|pairs| - 1]) + [(probIds[p.0], probIds[p.1]), (probIds[p.1], probIds[p.0])]
  }

  lemma {:induction false} EdgesOfShape(probIds: seq<int>, pairs: seq<(nat, nat)>)
    requires ValidPairs(probIds, pairs)
    ensures forall k :: 0 <= k < |pairs| ==>
      EdgesOf(probIds, pairs)[2 * k] == (probIds[pairs[k].0], probIds[pairs[k].1]) &&
      EdgesOf(probIds, pairs)[2 * k + 1] == (probIds[pairs[k].1], probIds[pairs[k].0])
  {
    if pairs != [] {
      var init := pairs[..|pairs| - 1];
      EdgesOfShape(probIds, init);
    }
  }

  /** The list the two loops build under the rule `conn`: every connected pair of positions,
      in the order the loops meet them, as its forward edge followed by its reverse edge. */
  function Edges(probIds: seq<int>, conn: Rule): seq<(int, int)>
  {
    EdgesOf(probIds, ConnectedPairs(probIds, conn))
  }

  /** The list `extract_edges` returns for the solver sets `usersSet`. */
  function EdgeList(probIds: seq<int>, usersSet: map<int, set<string>>, alpha: Alpha): seq<(int, int)>
  {
    Edges(probIds, ConnectRule(usersSet, alpha))
  }

  /** Which pairs a row holds: exactly the connected (idx1, x) with x below idx2. */
  lemma {:induction false} RowPairsExact(probIds: seq<int>, conn: Rule, idx1: nat, idx2: nat)
    requires idx1 < |probIds| && idx2 <= |probIds|
    ensures forall k :: 0 <= k < |RowPairs(probIds, conn, idx1, idx2)| ==>
      conn(probIds[idx1], probIds[RowPairs(probIds, conn, idx1, idx2)[k].1])
    ensures forall x :: idx1 < x < idx2 && conn(probIds[idx1], probIds[x]) ==>
      (idx1, x) in RowPairs(probIds, conn, idx1, idx2)
    decreases idx2
  {
    if idx2 > idx1 + 1 {
      RowPairsExact(probIds, conn, idx1, idx2 - 1);
      var init := RowPairs(probIds, conn, idx1, idx2 - 1);
      if conn(probIds[idx1], probIds[idx2 - 1]) {
        assert RowPairs(probIds, conn, idx1, idx2) == init + [(idx1, idx2 - 1)];
      } else {
        assert RowPairs(probIds, conn, idx1, idx2) == init + [];
        assert init + [] == init;
      }
    }
  }

  /** A row holds its second positions in ascending order. */
  lemma {:induction false} RowPairsAscending(probIds: seq<int>, conn: Rule, idx1: nat, idx2: nat)
    requires idx1 < |probIds| && idx2 <= |probIds|
    ensures forall a, b :: 0 <= a < b < |RowPairs(probIds, conn, idx1, idx2)| ==>
      RowPairs(probIds, conn, idx1, idx2)[a].1 < RowPairs(probIds, conn, idx1, idx2)[b].1
    decreases idx2
  {
    if idx2 > idx1 + 1 {
      RowPairsAscending(probIds, conn, idx1, idx2 - 1);
      var init := RowPairs(probIds, conn, idx1, idx2 - 1);
      var tail: seq<(nat, nat)> := if conn(probIds[idx1], probIds[idx2 - 1]) then [(idx1, idx2 - 1)] else [];
      var all: seq<(nat, nat)> := init + tail;
      assert RowPairs(probIds, conn, idx1, idx2) == all;
      forall a, b | 0 <= a < b < |all|
        ensures all[a].1 < all[b].1
      {
        assert all[a] == init[a];
        if b >= |init| {
          assert all[b] == (idx1, idx2 - 1);
        } else {
          assert all[b] == init[b];
        }
      }
    }
  }

  lemma PairsBelowUnfold(probIds: seq<int>, conn: Rule, idx1: nat)
    requires 0 < idx1 <= |probIds|
    ensures PairsBelow(probIds, conn, idx1) == PairsBelow(probIds, conn, idx1 - 1) + RowPairs(probIds, conn, idx1 - 1, |probIds|)
  {
  }

  /** Every pair the first idx1 rows hold connects. */
  lemma {:induction false} PairsBelowSound(probIds: seq<int>, conn: Rule, idx1: nat, k: nat)
    requires idx1 <= |probIds| && k < |PairsBelow(probIds, conn, idx1)|
    ensures conn(probIds[PairsBelow(probIds, conn, idx1)[k].0], probIds[PairsBelow(probIds, conn, idx1)[k].1])
    decreases idx1
  {
    var below := PairsBelow(probIds, conn, idx1 - 1);
    var row := RowPairs(probIds, conn, idx1 - 1, |probIds|);
    var p := PairsBelow(probIds, conn, idx1)[k];
    assert p == (below + row)[k] by {
      PairsBelowUnfold(probIds, conn, idx1);
    }
    if k < |below| {
      assert p == below[k] by {
        IndexAppend(below, row, k);
      }
      assert conn(probIds[p.0], probIds[p.1]) by {
        PairsBelowSound(probIds, conn, idx1 - 1, k);
      }
    } else {
      assert p == row[k - |below|] by {
        IndexAppend(below, row, k);
      }
      assert conn(probIds[p.0], probIds[p.1]) by {
        RowPairsExact(probIds, conn, idx1 - 1, |probIds|);
      }
    }
  }

  /** Every connected pair (x, y), x < y, with x below idx1 is held by the first idx1 rows. */
  lemma {:induction false} PairsBelowComplete(probIds: seq<int>, conn: Rule, idx1: nat, x: nat, y: nat)
    requires idx1 <= |probIds| && x < idx1 && x < y < |probIds| && conn(probIds[x], probIds[y])
    ensures (x, y) in PairsBelow(probIds, conn, idx1)
    decreases idx1
  {
    if x < idx1 - 1 {
      PairsBelowComplete(probIds, conn, idx1 - 1, x, y);
    } else {
      RowPairsExact(probIds, conn, idx1 - 1, |probIds|);
    }
    PairsBelowExtends(probIds, conn, idx1, (x, y));
  }

  /** The first idx1 rows hold what the first idx1 - 1 rows hold and row idx1 - 1. */
  lemma PairsBelowExtends(probIds: seq<int>, conn: Rule, idx1: nat, q: (nat, nat))
    requires 0 < idx1 <= |probIds|
    ensures q in PairsBelow(probIds, conn, idx1 - 1) ==> q in PairsBelow(probIds, conn, idx1)
    ensures q in RowPairs(probIds, conn, idx1 - 1, |probIds|) ==> q in PairsBelow(probIds, conn, idx1)
  {
    PairsBelowUnfold(probIds, conn, idx1);
    InAppend(PairsBelow(probIds, conn, idx1 - 1), RowPairs(probIds, conn, idx1 - 1, |probIds|), q);
  }

  /** Lexicographic order on pairs of positions. */
  predicate PairBefore(p: (nat, nat), q: (nat, nat))
  {
    p.0 < q.0 || (p.0 == q.0 && p.1 < q.1)
  }

  ghost predicate Sorted(pairs: seq<(nat, nat)>)
  {
    forall a, b :: 0 <= a < b < |pairs| ==> PairBefore(pairs[a], pairs[b])
  }

  /** Sorted pairs whose first positions are below i, followed by pairs (i, _) with ascending
      second positions, are sorted. */
  lemma SortedConcat(below: seq<(nat, nat)>, row: seq<(nat, nat)>, i: nat)
    requires Sorted(below) && forall k :: 0 <= k < |below| ==> below[k].0 < i
    requires forall k :: 0 <= k < |row| ==> row[k].0 == i
    requires forall a, b :: 0 <= a < b < |row| ==> row[a].1 < row[b].1
    ensures Sorted(below + row)
  {
    var all := below + row;
    forall a, b | 0 <= a < b < |all|
      ensures PairBefore(all[a], all[b])
    {
      if b < |below| {
        assert all[a] == below[a] && all[b] == below[b];
      } else if a < |below| {
        assert all[a] == below[a] && all[b] == row[b - |below|];
      } else {
        assert all[a] == row[a - |below|] && all[b] == row[b - |below|];
      }
    }
  }

  lemma {:induction false} PairsBelowSorted(probIds: seq<int>, conn: Rule, idx1: nat)
    requires idx1 <= |probIds|
    ensures Sorted(PairsBelow(probIds, conn, idx1))
    decreases idx1
  {
    if idx1 > 0 {
      var below := PairsBelow(probIds, conn, idx1 - 1);
      var row := RowPairs(probIds, conn, idx1 - 1, |probIds|);
      PairsBelowSorted(probIds, conn, idx1 - 1);
      RowPairsAscending(probIds, conn, idx1 - 1, |probIds|);
      SortedConcat(below, row, idx1 - 1);
      PairsBelowUnfold(probIds, conn, idx1);
    }
  }

  lemma SortedDistinct(pairs: seq<(nat, nat)>)
    requires Sorted(pairs)
    ensures Distinct(pairs)
  {
    forall a, b | 0 <= a < b < |pairs|
      ensures pairs[a] != pairs[b]
    {
      assert PairBefore(pairs[a], pairs[b]);
    }
  }

  /** The pairs the loops connect are exactly the positions idx1 < idx2 whose problems connect. */
  lemma ConnectedPairsExact(probIds: seq<int>, conn: Rule)
    ensures forall x, y :: 0 <= x < y < |probIds| ==>
      ((x, y) in ConnectedPairs(probIds, conn) <==> conn(probIds[x], probIds[y]))
  {
    var pairs := ConnectedPairs(probIds, conn);
    forall x, y | 0 <= x < y < |probIds|
      ensures (x, y) in pairs <==> conn(probIds[x], probIds[y])
    {
      if (x, y) in pairs {
        var k :| 0 <= k < |pairs| && pairs[k] == (x, y);
        PairsBelowSound(probIds, conn, |probIds|, k);
      }
      if conn(probIds[x], probIds[y]) {
        PairsBelowComplete(probIds, conn, |probIds|, x, y);
      }
    }
  }

  /** The loops meet the connected pairs in lexicographic order, each once. */
  lemma ConnectedPairsOrdered(probIds: seq<int>, conn: Rule)
    ensures Sorted(ConnectedPairs(probIds, conn))
    ensures Distinct(ConnectedPairs(probIds, conn))
  {
    PairsBelowSorted(probIds, conn, |probIds|);
    SortedDistinct(ConnectedPairs(probIds, conn));
  }

  /** The edge list holds, for the k-th connected pair of positions, its forward edge at 2k
      and its reverse edge at 2k + 1. */
  lemma EdgesShape(probIds: seq<int>, conn: Rule)
    ensures |Edges(probIds, conn)| == 2 * |ConnectedPairs(probIds, conn)|
    ensures forall k :: 0 <= k < |ConnectedPairs(probIds, conn)| ==>
      var p := ConnectedPairs(probIds, conn)[k];
      Edges(probIds, conn)[2 * k] == (probIds[p.0], probIds[p.1]) &&
      Edges(probIds, conn)[2 * k + 1] == (probIds[p.1], probIds[p.0])
  {
    EdgesOfShape(probIds, ConnectedPairs(probIds, conn));
  }

  /** Every edge joins, in one direction or the other, two configured problems that connect. */
  lemma EdgesSound(probIds: seq<int>, conn: Rule)
    ensures forall e :: e in Edges(probIds, conn) ==>
      exists x, y :: 0 <= x < y < |probIds| && conn(probIds[x], probIds[y]) &&
        (e == (probIds[x], probIds[y]) || e == (probIds[y], probIds[x]))
  {
    var edges, pairs := Edges(probIds, conn), ConnectedPairs(probIds, conn);
    EdgesShape(probIds, conn);
    forall e | e in edges
      ensures exists x, y :: 0 <= x < y < |probIds| && conn(probIds[x], probIds[y]) && (e == (probIds[x], probIds[y]) || e == (probIds[y], probIds[x]))
    {
      var m :| 0 <= m < |edges| && edges[m] == e;
      var k := m / 2;
      var p := pairs[k];
      PairsBelowSound(probIds, conn, |probIds|, k);
      assert e == (probIds[p.0], probIds[p.1]) || e == (probIds[p.1], probIds[p.0]);
    }
  }

  /** Every two configured problems that connect are joined by an edge in each direction. */
  lemma EdgesComplete(probIds: seq<int>, conn: Rule)
    ensures forall x, y :: 0 <= x < y < |probIds| && conn(probIds[x], probIds[y]) ==>
      (probIds[x], probIds[y]) in Edges(probIds, conn) && (probIds[y], probIds[x]) in Edges(probIds, conn)
  {
    var edges, pairs := Edges(probIds, conn), ConnectedPairs(probIds, conn);
    EdgesShape(probIds, conn);
    forall x, y | 0 <= x < y < |probIds| && conn(probIds[x], probIds[y])
      ensures (probIds[x], probIds[y]) in edges && (probIds[y], probIds[x]) in edges
    {
      PairsBelowComplete(probIds, conn, |probIds|, x, y);
      var k :| 0 <= k < |pairs| && pairs[k] == (x, y);
      assert edges[2 * k] == (probIds[x], probIds[y]);
      assert edges[2 * k + 1] == (probIds[y], probIds[x]);
    }
  }

  /** The edge list is symmetric: (p1, p2) is in it exactly when (p2, p1) is. */
  lemma EdgesSymmetric(probIds: seq<int>, conn: Rule)
    ensures forall a, b :: (a, b) in Edges(probIds, conn) <==> (b, a) in Edges(probIds, conn)
  {
    var edges := Edges(probIds, conn);
    EdgesSound(probIds, conn);
    EdgesComplete(probIds, conn);
    forall a, b | (a, b) in edges
      ensures (b, a) in edges
    {
      var x, y :| 0 <= x < y < |probIds| && conn(probIds[x], probIds[y]) &&
        ((a, b) == (probIds[x], probIds[y]) || (a, b) == (probIds[y], probIds[x]));
    }
  }

  /** The positions x < y whose problems connect. */
  ghost function ConnectablePairs(probIds: seq<int>, conn: Rule): set<(nat, nat)>
  {
    set x: nat, y: nat | x < y < |probIds| && conn(probIds[x], probIds[y]) :: (x, y)
  }

  /** Two edges per connected pair of positions, so the list always has even length. */
  lemma EdgeCount(probIds: seq<int>, conn: Rule)
    ensures |Edges(probIds, conn)| == 2 * |ConnectablePairs(probIds, conn)|
  {
    var pairs := ConnectedPairs(probIds, conn);
    EdgesShape(probIds, conn);
    ConnectedPairsExact(probIds, conn);
    ConnectedPairsOrdered(probIds, conn);
    DistinctCardinality(pairs);
    assert (set p | p in pairs) == ConnectablePairs(probIds, conn);
  }

  /** With a positive alpha, two problems that connect share a solver. */
  lemma ConnectedShareASolver(usersSet: map<int, set<string>>, alpha: Alpha, probId1: int, probId2: int)
    requires probId1 in usersSet && probId2 in usersSet
    requires |usersSet[probId1]| + |usersSet[probId2]| > 0
    requires alpha.num > 0
    requires CanConnect(usersSet, alpha, probId1, probId2)
    ensures usersSet[probId1] * usersSet[probId2] != {} && usersSet[probId2] * usersSet[probId1] != {}
  {
    var users1, users2 := usersSet[probId1], usersSet[probId2];
    TimesIsProduct(alpha.den, |users1 * users2|);
    TimesIsProduct(alpha.num, |users1| + |users2|);
    assert |users1 * users2| * alpha.den > 0;
    assert users1 * users2 == users2 * users1;
  }

  /** With a positive alpha, every edge of `extract_edges` joins two problems that share a solver. */
  lemma EdgesShareASolver(probIds: seq<int>, usersSet: map<int, set<string>>, alpha: Alpha)
    requires alpha.num > 0
    ensures forall e :: e in EdgeList(probIds, usersSet, alpha) ==>
      e.0 in usersSet && e.1 in usersSet && usersSet[e.0] * usersSet[e.1] != {}
  {
    var conn := ConnectRule(usersSet, alpha);
    var edges := Edges(probIds, conn);
    EdgesSound(probIds, conn);
    forall e | e in edges
      ensures e.0 in usersSet && e.1 in usersSet && usersSet[e.0] * usersSet[e.1] != {}
    {
      var x, y :| 0 <= x < y < |probIds| && conn(probIds[x], probIds[y]) &&
        (e == (probIds[x], probIds[y]) || e == (probIds[y], probIds[x]));
      ConnectedShareASolver(usersSet, alpha, probIds[x], probIds[y]);
    }
  }

  /** In the source's own terms: when every visited pair can be evaluated, two configured
      problems at positions x < y are joined by the edge (p1, p2) exactly when their overlap
      ratio reaches alpha. */
  lemma EdgeListMeaning(probIds: seq<int>, usersSet: map<int, set<string>>, alpha: Alpha, x: nat, y: nat)
    requires PairsDefined(probIds, usersSet)
    requires x < y < |probIds|
    requires probIds[x] in usersSet && probIds[y] in usersSet
    requires |usersSet[probIds[x]]| + |usersSet[probIds[y]]| > 0
    ensures (probIds[x], probIds[y]) in EdgeList(probIds, usersSet, alpha) <==>
      OverlapRatio(usersSet[probIds[x]], usersSet[probIds[y]]) >= AlphaValue(alpha)
  {
    var conn := ConnectRule(usersSet, alpha);
    var p1, p2 := probIds[x], probIds[y];
    CanConnectIsOverlapThreshold(usersSet, alpha, p1, p2);
    ConnectRuleAt(usersSet, alpha, p1, p2);
    if (p1, p2) in Edges(probIds, conn) {
      EdgesSound(probIds, conn);
      var x', y' :| 0 <= x' < y' < |probIds| && conn(probIds[x'], probIds[y']) &&
        ((p1, p2) == (probIds[x'], probIds[y']) || (p1, p2) == (probIds[y'], probIds[x']));
      ConnectRuleAt(usersSet, alpha, probIds[x'], probIds[y']);
      CanConnectSymmetric(usersSet, alpha, p1, p2);
    }
    if conn(p1, p2) {
      EdgesComplete(probIds, conn);
    }
  }

  /** Only the set of each problem's solvers matters: repeating a user id or reordering a
      fetched list leaves the edges, and whether the source can compute them, unchanged. */
  lemma EdgesIgnoreListOrderAndRepeats(probIds: seq<int>, data1: map<int, seq<string>>, data2: map<int, seq<string>>, alpha: Alpha)
    requires data1.Keys == data2.Keys
    requires forall id :: id in data1 ==> (forall u :: u in data1[id] <==> u in data2[id])
    ensures PairsDefined(probIds, UserSets(data1)) <==> PairsDefined(probIds, UserSets(data2))
    ensures EdgeList(probIds, UserSets(data1), alpha) == EdgeList(probIds, UserSets(data2), alpha)
  {
    var sets1, sets2 := UserSets(data1), UserSets(data2);
    forall id | id in data1
      ensures sets1[id] == sets2[id]
    {
      assert ToSet(data1[id]) == ToSet(data2[id]);
    }
    assert sets1 == sets2;
  }

  /** Three problems where only the first two share a solver. */
  const ExampleSolvers: map<int, set<string>> := map[1 := {"u1", "u2"}, 2 := {"u2", "u3"}, 3 := {"u4"}]

  /** In the example, 1/4 of the first two problems' four solver entries overlap, which meets
      alpha = 1/4; the third problem overlaps with neither. */
  lemma ExampleConnections()
    ensures ConnectRule(ExampleSolvers, Alpha(1, 4))(1, 2)
    ensures !ConnectRule(ExampleSolvers, Alpha(1, 4))(1, 3)
    ensures !ConnectRule(ExampleSolvers, Alpha(1, 4))(2, 3)
  {
    var usersSet := ExampleSolvers;
    assert |usersSet[1]| == 2 && |usersSet[2]| == 2 && |usersSet[3]| == 1;
    assert usersSet[1] * usersSet[2] == {"u2"};
    assert usersSet[1] * usersSet[3] == {};
    assert usersSet[2] * usersSet[3] == {};
  }

  /** In the example only the positions 0 and 1 connect. */
  lemma ExamplePairs()
    ensures ConnectedPairs([1, 2, 3], ConnectRule(ExampleSolvers, Alpha(1, 4))) == [(0, 1)]
  {
    var ids: seq<int> := [1, 2, 3];
    var conn := ConnectRule(ExampleSolvers, Alpha(1, 4));
    ExampleConnections();
    assert RowPairs(ids, conn, 0, 3) == [(0, 1)];
    assert RowPairs(ids, conn, 1, 3) == [];
    assert RowPairs(ids, conn, 2, 3) == [];
    assert PairsBelow(ids, conn, 2) == [(0, 1)];
  }

  /** On the example the source raises nothing, and the edges are (1, 2) and (2, 1). */
  lemma EdgeListExample()
    ensures PairsDefined([1, 2, 3], ExampleSolvers)
    ensures EdgeList([1, 2, 3], ExampleSolvers, Alpha(1, 4)) == [(1, 2), (2, 1)]
  {
    var ids: seq<int> := [1, 2, 3];
    var conn := ConnectRule(ExampleSolvers, Alpha(1, 4));
    assert PairsDefined(ids, ExampleSolvers) by {
      assert |ExampleSolvers[1]| == 2 && |ExampleSolvers[2]| == 2 && |ExampleSolvers[3]| == 1;
    }
    ExamplePairs();
    assert EdgesOf(ids, [(0, 1)]) == [(1, 2), (2, 1)];
  }

  lemma UserSetsByKeys(data: Dict<int, seq<string>>, usersSet: map<int, set<string>>)
    requires data.Valid()
    requires forall id :: id in usersSet <==> id in data.order
    requires forall id :: id in usersSet ==> id in data.items && usersSet[id] == ToSet(data.items[id])
    ensures usersSet == UserSets(data.items)
  {
    var expected := UserSets(data.items);
    forall id
      ensures id in usersSet <==> id in expected
    {
      assert id in data.items <==> id in data.order;
    }
    assert usersSet.Keys == expected.Keys;
    assert forall id :: id in usersSet ==> usersSet[id] == expected[id];
  }

  /** The "make set()" loop of `extract_edges`: `users_set[prob_id] = set(users)` for each
      entry of the loaded data. */
  method MakeUserSets(data: Dict<int, seq<string>>) returns (usersSet: map<int, set<string>>)
    requires data.Valid()
    ensures usersSet == UserSets(data.items)
  {
    usersSet := map[];
    for i := 0 to |data.order|
      invariant forall id :: id in usersSet <==> id in data.order[..i]
      invariant forall id :: id in usersSet ==> id in data.items && usersSet[id] == ToSet(data.items[id])
    {
      var probId := data.order[i];
      var s := ToSet(data.items[probId]);
      usersSet := usersSet[probId := s];
    }
    assert data.order[..|data.order|] == data.order;
    UserSetsByKeys(data, usersSet);
  }

  /** `extract_edges` on the loaded solver lists `data`: turn each list into a set, then walk
      every pair of positions idx1 < idx2 and append both directions of each connectable pair. */
  method ExtractEdges(probIds: seq<int>, data: Dict<int, seq<string>>, alpha: Alpha) returns (edges: seq<(int, int)>)
    requires data.Valid()
    requires PairsDefined(probIds, UserSets(data.items))
    ensures edges == EdgeList(probIds, UserSets(data.items), alpha)
  {
    var usersSet := MakeUserSets(data);
    edges := CalculateEdges(probIds, usersSet, alpha);
  }

  /** The "calculate edge" loops of `extract_edges`: for idx1 ascending and idx2 ascending from
      idx1 + 1, append (p1, p2) and then (p2, p1) whenever the two problems connect. */
  method CalculateEdges(probIds: seq<int>, usersSet: map<int, set<string>>, alpha: Alpha) returns (edges: seq<(int, int)>)
    requires PairsDefined(probIds, usersSet)
    ensures edges == EdgeList(probIds, usersSet, alpha)
  {
    ghost var conn := ConnectRule(usersSet, alpha);
    edges := [];
    var probNum := |probIds|;
    for idx1 := 0 to probNum
      invariant edges == EdgesOf(probIds, PairsBelow(probIds, conn, idx1))
    {
      edges := AppendRowEdges(probIds, usersSet, alpha, idx1, edges);
      assert PairsBelow(probIds, conn, idx1 + 1) == Met(probIds, conn, idx1, probNum);
    }
  }

  /** The inner loop of `extract_edges` for one idx1: idx2 runs from idx1 + 1 to the end. */
  method AppendRowEdges(probIds: seq<int>, usersSet: map<int, set<string>>, alpha: Alpha, idx1: nat, edges0: seq<(int, int)>)
    returns (edges: seq<(int, int)>)
    requires idx1 < |probIds|
    requires PairsDefined(probIds, usersSet)
    requires edges0 == EdgesOf(probIds, PairsBelow(probIds, ConnectRule(usersSet, alpha), idx1))
    ensures edges == EdgesOf(probIds, Met(probIds, ConnectRule(usersSet, alpha), idx1, |probIds|))
  {
    ghost var conn := ConnectRule(usersSet, alpha);
    edges := edges0;
    var probNum := |probIds|;
    var probId1 := probIds[idx1];
    assert Met(probIds, conn, idx1, idx1 + 1) == PairsBelow(probIds, conn, idx1) + [];
    assert PairsBelow(probIds, conn, idx1) + [] == PairsBelow(probIds, conn, idx1);
    for idx2 := idx1 + 1 to probNum
      invariant edges == EdgesOf(probIds, Met(probIds, conn, idx1, idx2))
    {
      var probId2 := probIds[idx2];
      var connected := CanConnect(usersSet, alpha, probId1, probId2);
      ConnectStep(probIds, usersSet, alpha, idx1, idx2, connected, edges);
      if connected {
        edges := edges + [(probId1, probId2)];
        edges := edges + [(probId2, probId1)];
      }
    }
  }
}
