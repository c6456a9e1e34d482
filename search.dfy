/** The tag and problem-list crawler of `search.py`.

    The browser is replaced by the rows it would show. A tag's problem listing (sorted by
    solved count, descending) is a sequence of pages, page `n` (numbered from 1) being
    `pages[n - 1]`, and every page past the end showing an empty table. The site as a whole is
    a function from a tag id to that tag's listing. */
module Search {
  import opened Wrappers
  import opened Seqs
  import opened Dicts

  /** Problems solved by more people than this are skipped. */
  const MAX_SOLVED := 1000
  /** `get_prob_list` stops once it has this many problems. */
  const LIST_SIZE := 50
  /** `load_from_web` reads at most this many tag rows. */
  const MAX_TAGS := 30
  /** The path segment that precedes a tag id in a tag link. */
  const TAG_SEPARATOR := "/problem/tag/"

  // ---------------------------------------------------------------------------------------
  // The problem list of one tag (`get_prob_list`)
  // ---------------------------------------------------------------------------------------

  /** One row of a problem listing: the problem id (column 0) and its solved count (column 3). */
  datatype ProblemRow = ProblemRow(id: int, solvedCount: int)

  type Listing = seq<seq<ProblemRow>>

  function PageAt(pages: Listing, pageNum: int): seq<ProblemRow>
  {
    if 1 <= pageNum <= |pages| then pages[pageNum - 1] else []
  }

  predicate Qualifies(row: ProblemRow)
  {
    row.solvedCount <= MAX_SOLVED
  }

  /** The ids of the rows solved at most MAX_SOLVED times, in row order. */
  function Qualifying(rows: seq<ProblemRow>): seq<int>
  {
    if rows == [] then []
    else
      var last := rows[|rows| - 1];
      Qualifying(rows[..|rows| - 1]) + if Qualifies(last) then [last.id] else []
  }

  lemma {:induction false} QualifyingAppend(a: seq<ProblemRow>, b: seq<ProblemRow>)
    ensures Qualifying(a + b) == Qualifying(a) + Qualifying(b)
    decreases |b|
  {
    if b == [] {
      assert a + b == a;
    } else {
      var b' := b[..|b| - 1];
      assert (a + b)[..|a + b| - 1] == a + b';
      QualifyingAppend(a, b');
    }
  }

  /** An id is kept exactly when some row carrying it qualifies. */
  lemma {:induction false} QualifyingMembers(rows: seq<ProblemRow>)
    ensures |Qualifying(rows)| <= |rows|
    ensures forall id :: id in Qualifying(rows) <==> exists row :: row in rows && Qualifies(row) && row.id == id
  {
    if rows != [] {
      var init, last := rows[..|rows| - 1], rows[|rows| - 1];
      QualifyingMembers(init);
      assert rows == init + [last];
    }
  }

  /** The number of the first page, from `pageNum` on, whose table is empty. */
  function FirstEmptyFrom(pages: Listing, pageNum: nat): (k: nat)
    requires 1 <= pageNum <= |pages| + 1
    ensures pageNum <= k <= |pages| + 1
    ensures PageAt(pages, k) == []
    ensures forall n :: pageNum <= n < k ==> PageAt(pages, n) != []
    decreases |pages| + 1 - pageNum
  {
    if PageAt(pages, pageNum) == [] then pageNum else FirstEmptyFrom(pages, pageNum + 1)
  }

  /** The number of the first page whose table is empty. */
  function FirstEmpty(pages: Listing): (k: nat)
    ensures 1 <= k <= |pages| + 1
    ensures PageAt(pages, k) == []
    ensures forall n :: 1 <= n < k ==> PageAt(pages, n) != []
  {
    FirstEmptyFrom(pages, 1)
  }

  /** Every row of the pages before the first empty one, in page order and then row order. */
  function RowsBeforeEmpty(pages: Listing): seq<ProblemRow>
  {
    Flatten(pages[..FirstEmpty(pages) - 1])
  }

  /** What `get_prob_list` returns for a tag listed by `pages`: the first LIST_SIZE qualifying
      ids among the rows before the first empty page, or all of them if there are fewer. */
  function ProbList(pages: Listing): seq<int>
  {
    var ids := Qualifying(RowsBeforeEmpty(pages));
    if |ids| <= LIST_SIZE then ids else ids[..LIST_SIZE]
  }

  /** Reading row `j` of a page keeps its id exactly when the row qualifies. */
  lemma QualifyingStep(before: seq<ProblemRow>, entries: seq<ProblemRow>, j: nat)
    requires j < |entries|
    ensures Qualifying(before + entries[..j + 1]) ==
      Qualifying(before + entries[..j]) + if Qualifies(entries[j]) then [entries[j].id] else []
  {
    assert before + entries[..j + 1] == (before + entries[..j]) + [entries[j]];
  }

  /** Once the qualifying ids of the rows up to row `j` of page `iter` number LIST_SIZE, they
      are the whole problem list. */
  lemma ProbListWhenFull(pages: Listing, iter: nat, j: nat)
    requires 1 <= iter < FirstEmpty(pages)
    requires j <= |PageAt(pages, iter)|
    requires |Qualifying(Flatten(pages[..iter - 1]) + PageAt(pages, iter)[..j])| == LIST_SIZE
    ensures ProbList(pages) == Qualifying(Flatten(pages[..iter - 1]) + PageAt(pages, iter)[..j])
  {
    var k := FirstEmpty(pages);
    var entries := PageAt(pages, iter);
    var before, rest := Flatten(pages[..iter - 1]), Flatten(pages[iter..k - 1]);
    var prefix := before + entries[..j];
    var later := entries[j..] + rest;
    assert RowsBeforeEmpty(pages) == Flatten(pages[..iter]) + rest by {
      assert pages[..k - 1] == pages[..iter] + pages[iter..k - 1];
      FlattenAppend(pages[..iter], pages[iter..k - 1]);
    }
    assert Flatten(pages[..iter]) == before + entries by {
      FlattenStep(pages, iter);
    }
    assert before + entries + rest == prefix + later by {
      assert entries == entries[..j] + entries[j..];
      AppendAssoc(before, entries[..j], entries[j..]);
      AppendAssoc(before + entries[..j], entries[j..], rest);
    }
    QualifyingAppend(prefix, later);
  }

  /** `get_prob_list`: read pages 1, 2, 3, ... until a page is empty, keeping each row solved
      at most MAX_SOLVED times, and stop as soon as LIST_SIZE problems are kept. */
  method GetProbList(pages: Listing) returns (result: seq<int>)
    ensures result == ProbList(pages)
  {
    result := [];
    var iter := 0;
    var size := 0;
    while true
      invariant 0 <= iter < FirstEmpty(pages)
      invariant size == |result| < LIST_SIZE
      invariant result == Qualifying(Flatten(pages[..iter]))
      decreases FirstEmpty(pages) - iter
    {
      iter := iter + 1;
      var entries := PageAt(pages, iter);
      if |entries| == 0 {
        assert result == Qualifying(RowsBeforeEmpty(pages)) by {
          assert iter == FirstEmpty(pages);
        }
        break;
      }
      ghost var before := Flatten(pages[..iter - 1]);
      assert before + entries[..0] == before;
      for j := 0 to |entries|
        invariant size == |result| < LIST_SIZE
        invariant result == Qualifying(before + entries[..j])
      {
        QualifyingStep(before, entries, j);
        if entries[j].solvedCount > MAX_SOLVED {
          continue;
        }
        size := size + 1;
        result := result + [entries[j].id];
        if size >= LIST_SIZE {
          ProbListWhenFull(pages, iter, j + 1);
          return;
        }
      }
      assert result == Qualifying(Flatten(pages[..iter])) by {
        assert entries[..|entries|] == entries;
        FlattenStep(pages, iter);
      }
    }
  }

  /** The problem list has at most LIST_SIZE ids; it is the leading part, in page and row order,
      of the qualifying ids before the first empty page, all of them when there are no more
      than LIST_SIZE; and every id in it comes from a row on such a page solved at most
      MAX_SOLVED times. */
  lemma ProbListProperties(pages: Listing)
    ensures |ProbList(pages)| <= LIST_SIZE
    ensures ProbList(pages) <= Qualifying(RowsBeforeEmpty(pages))
    ensures |Qualifying(RowsBeforeEmpty(pages))| <= LIST_SIZE ==> ProbList(pages) == Qualifying(RowsBeforeEmpty(pages))
    ensures forall id :: id in ProbList(pages) ==>
      exists n, row :: 1 <= n < FirstEmpty(pages) && row in PageAt(pages, n) && Qualifies(row) && row.id == id
  {
    var k := FirstEmpty(pages);
    var rows := RowsBeforeEmpty(pages);
    QualifyingMembers(rows);
    FlattenMembers(pages[..k - 1]);
    forall id | id in ProbList(pages)
      ensures exists n, row :: 1 <= n < k && row in PageAt(pages, n) && Qualifies(row) && row.id == id
    {
      assert id in Qualifying(rows);
      var row :| row in rows && Qualifies(row) && row.id == id;
      var i :| 0 <= i < k - 1 && row in pages[..k - 1][i];
      assert row in PageAt(pages, i + 1);
    }
  }

  /** Pages after the first empty one are never looked at. */
  lemma ProbListIgnoresLaterPages(pages: Listing, later: Listing)
    requires FirstEmpty(pages) <= |pages|
    ensures ProbList(pages + later) == ProbList(pages)
  {
    var k := FirstEmpty(pages);
    forall n | 1 <= n <= k
      ensures PageAt(pages + later, n) == PageAt(pages, n)
    {
    }
    assert PageAt(pages + later, k) == [];
    assert (pages + later)[..k - 1] == pages[..k - 1];
  }

  /** The cut-off is inclusive: a problem solved exactly MAX_SOLVED times is kept, one solved
      once more is skipped. */
  lemma ProbListSolvedBoundary()
    ensures ProbList([[ProblemRow(7, MAX_SOLVED)]]) == [7]
    ensures ProbList([[ProblemRow(7, MAX_SOLVED + 1)]]) == []
  {
    var kept, skipped := [[ProblemRow(7, MAX_SOLVED)]], [[ProblemRow(7, MAX_SOLVED + 1)]];
    assert FirstEmpty(kept) == 2 && FirstEmpty(skipped) == 2;
    assert kept[..1] == kept && skipped[..1] == skipped;
    assert Flatten(kept) == Flatten(kept[..0]) + kept[0];
    assert Flatten(skipped) == Flatten(skipped[..0]) + skipped[0];
    assert kept[0][..0] == [] && skipped[0][..0] == [];
    assert Qualifies(kept[0][0]) && !Qualifies(skipped[0][0]);
    assert Qualifying(kept[0]) == [7];
  }

  // ---------------------------------------------------------------------------------------
  // Tag ids (`re.split("/problem/tag/", href)[1]`)
  // ---------------------------------------------------------------------------------------

  /** The separator occurs in `s` starting at index `i`. */
  predicate OccursAt(s: string, i: int)
  {
    0 <= i && i + |TAG_SEPARATOR| <= |s| && s[i..i + |TAG_SEPARATOR|] == TAG_SEPARATOR
  }

  /** The first index from `from` on where the separator occurs. */
  function FindFrom(s: string, from: nat): (r: Option<nat>)
    requires from <= |s|
    ensures r.Some? ==> from <= r.value && OccursAt(s, r.value)
    ensures forall i :: from <= i && (r.None? || i < r.value) ==> !OccursAt(s, i)
    decreases |s| - from
  {
    if from + |TAG_SEPARATOR| > |s| then None
    else if s[from..from + |TAG_SEPARATOR|] == TAG_SEPARATOR then Some(from)
    else FindFrom(s, from + 1)
  }

  /** `v` is the field of `s` that starts at `start`: the text up to the next occurrence of the
      separator, or up to the end when there is none. */
  ghost predicate FieldAt(s: string, start: nat, v: string)
  {
    start + |v| <= |s| && s[start..start + |v|] == v &&
    (forall i :: start <= i < start + |v| ==> !OccursAt(s, i)) &&
    (start + |v| == |s| || OccursAt(s, start + |v|))
  }

  /** The text of `s` from `start` up to the next occurrence of the separator, or to the end
      when there is none. */
  function FieldFrom(s: string, start: nat): string
    requires start <= |s|
  {
    match FindFrom(s, start)
    case None => s[start..]
    case Some(j) => s[start..j]
  }

  lemma FieldFromIsField(s: string, start: nat)
    requires start <= |s|
    ensures FieldAt(s, start, FieldFrom(s, start))
  {
    match FindFrom(s, start)
    case None =>
      assert FieldFrom(s, start) == s[start..];
    case Some(j) =>
      assert FieldFrom(s, start) == s[start..j];
  }

  /** The second field of the link split on the separator; `None` where the split has one field
      only and indexing it raises. */
  function TagIdOf(href: string): Option<string>
  {
    match FindFrom(href, 0)
    case None => None
    case Some(i) => Some(FieldFrom(href, i + |TAG_SEPARATOR|))
  }

  /** The separator occurs at `i` and nowhere before. */
  ghost predicate FirstOccurrence(s: string, i: int)
  {
    OccursAt(s, i) && forall k :: 0 <= k < i ==> !OccursAt(s, k)
  }

  /** The split fails exactly when the separator never occurs; otherwise the tag id is the
      field (see `FieldFromIsField`) that follows the first occurrence. */
  lemma TagIdOfMeaning(href: string)
    ensures TagIdOf(href).None? <==> forall i :: 0 <= i <= |href| ==> !OccursAt(href, i)
    ensures forall i :: FirstOccurrence(href, i) ==> TagIdOf(href) == Some(FieldFrom(href, i + |TAG_SEPARATOR|))
  {
    match FindFrom(href, 0)
    case None =>
    case Some(i) =>
      forall i' | FirstOccurrence(href, i')
        ensures i' == i
      {
      }
  }

  /** The field starting at a given index is unique. */
  lemma FieldAtUnique(s: string, start: nat, v: string, w: string)
    requires FieldAt(s, start, v) && FieldAt(s, start, w)
    ensures v == w
  {
    assert v == s[start..start + |v|] && w == s[start..start + |w|];
  }

  /** The separator after a host part without it is the link's first occurrence. */
  lemma LinkFirstOccurrence(host: string, id: string)
    requires forall i :: 0 <= i < |host| ==> !OccursAt(host + TAG_SEPARATOR, i)
    ensures FirstOccurrence(host + TAG_SEPARATOR + id, |host|)
  {
    var href := host + TAG_SEPARATOR + id;
    assert href[|host|..|host| + |TAG_SEPARATOR|] == TAG_SEPARATOR;
    forall i | 0 <= i < |host|
      ensures !OccursAt(href, i)
    {
      assert !OccursAt(host + TAG_SEPARATOR, i);
      assert href[i..i + |TAG_SEPARATOR|] == (host + TAG_SEPARATOR)[i..i + |TAG_SEPARATOR|];
    }
  }

  /** An id without '/' after the separator is a whole field of the link. */
  lemma LinkField(host: string, id: string)
    requires '/' !in id
    ensures FieldAt(host + TAG_SEPARATOR + id, |host| + |TAG_SEPARATOR|, id)
  {
    var href := host + TAG_SEPARATOR + id;
    var start := |host| + |TAG_SEPARATOR|;
    forall i | start <= i < start + |id|
      ensures !OccursAt(href, i)
    {
      assert href[i] == id[i - start];
      assert id[i - start] in id;
      if i + |TAG_SEPARATOR| <= |href| {
        assert href[i..i + |TAG_SEPARATOR|][0] == href[i];
      }
    }
    assert href[start..start + |id|] == id;
  }

  /** A link made of a host part without the separator, the separator, and an id without '/'
      yields exactly that id. */
  lemma TagIdOfLink(host: string, id: string)
    requires forall i :: 0 <= i < |host| ==> !OccursAt(host + TAG_SEPARATOR, i)
    requires '/' !in id
    ensures TagIdOf(host + TAG_SEPARATOR + id) == Some(id)
  {
    var href := host + TAG_SEPARATOR + id;
    var start := |host| + |TAG_SEPARATOR|;
    LinkFirstOccurrence(host, id);
    LinkField(host, id);
    TagIdOfMeaning(href);
    FieldFromIsField(href, start);
    FieldAtUnique(href, start, id, FieldFrom(href, start));
  }

  // ---------------------------------------------------------------------------------------
  // The tag table and the final table (`load_from_web`)
  // ---------------------------------------------------------------------------------------

  /** One row of the tags page: the Korean name (column 0), the English name (column 1) and the
      link of column 0's anchor. */
  datatype TagRow = TagRow(korName: string, engName: string, href: string)

  /** A value of the intermediate dictionary `dic`. */
  datatype TagInfo = TagInfo(korName: string, engName: string, tagId: string)

  /** A value of the saved dictionary `dic2`. */
  datatype TagProblems = TagProblems(korName: string, engName: string, probList: seq<int>)

  /** The rows the first loop reads: the first MAX_TAGS, or all of them if there are fewer. */
  function ReadRows(rows: seq<TagRow>): (r: seq<TagRow>)
    ensures |r| <= MAX_TAGS && r <= rows
    ensures |rows| <= MAX_TAGS ==> r == rows
    ensures |rows| >= MAX_TAGS ==> |r| == MAX_TAGS
  {
    if |rows| <= MAX_TAGS then rows else rows[..MAX_TAGS]
  }

  /** The row's link has the separator, so the row does not raise. */
  predicate Linked(row: TagRow)
  {
    TagIdOf(row.href).Some?
  }

  predicate AllLinked(rows: seq<TagRow>)
  {
    forall k :: 0 <= k < |rows| ==> Linked(rows[k])
  }

  /** The assignment `dic[tag_id] = {...}` a row makes. */
  function TagEntry(row: TagRow): (string, TagInfo)
    requires Linked(row)
  {
    var tagId := TagIdOf(row.href).value;
    (tagId, TagInfo(row.korName, row.engName, tagId))
  }

  /** The assignments made by the first loop, one per row. */
  function TagEntries(rows: seq<TagRow>): seq<(string, TagInfo)>
    requires AllLinked(rows)
  {
    seq(|rows|, k requires 0 <= k < |rows| => TagEntry(rows[k]))
  }

  lemma TagEntriesStep(rows: seq<TagRow>, k: nat)
    requires k < |rows|
    requires AllLinked(rows[..k]) && Linked(rows[k])
    ensures AllLinked(rows[..k + 1])
    ensures TagEntries(rows[..k + 1]) == TagEntries(rows[..k]) + [TagEntry(rows[k])]
  {
    assert rows[..k + 1] == rows[..k] + [rows[k]];
  }

  /** The intermediate dictionary `dic`, or `None` when some row read has a link without the
      separator. */
  function TagTable(rows: seq<TagRow>): Option<Dict<string, TagInfo>>
  {
    var read := ReadRows(rows);
    if AllLinked(read) then Some(FromEntries(TagEntries(read))) else None
  }

  /** The assignments `dic2[tag_id] = {...}` made by the second loop, one per value of `dic`. */
  function ProblemEntries(dic: Dict<string, TagInfo>, site: string -> Listing): seq<(string, TagProblems)>
    requires dic.Valid()
  {
    seq(|dic.order|, k requires 0 <= k < |dic.order| =>
      var d := dic.items[dic.order[k]];
      (d.tagId, TagProblems(d.korName, d.engName, ProbList(site(d.tagId)))))
  }

  /** What `load_from_web` saves, or `None` where it raises. */
  function LoadResult(rows: seq<TagRow>, site: string -> Listing): Option<Dict<string, TagProblems>>
  {
    match TagTable(rows)
    case None => None
    case Some(dic) => Some(FromEntries(ProblemEntries(dic, site)))
  }

  /** `load_from_web` raises exactly when one of the first MAX_TAGS rows has a link without
      the separator; rows after those are never read. */
  lemma TagTableFails(rows: seq<TagRow>, later: seq<TagRow>)
    ensures TagTable(rows).None? <==> exists k :: 0 <= k < |rows| && k < MAX_TAGS && !Linked(rows[k])
    ensures |rows| >= MAX_TAGS ==> TagTable(rows + later) == TagTable(rows)
  {
    var read := ReadRows(rows);
    if !AllLinked(read) {
      var k :| 0 <= k < |read| && !Linked(read[k]);
      assert read[k] == rows[k];
    }
    if |rows| >= MAX_TAGS {
      assert ReadRows(rows + later) == read;
    }
  }

  /** The intermediate dictionary holds at most MAX_TAGS tags, each once. */
  lemma TagTableSize(rows: seq<TagRow>, dic: Dict<string, TagInfo>)
    requires TagTable(rows) == Some(dic)
    ensures dic.Valid()
    ensures |dic.order| <= MAX_TAGS
  {
    var entries := TagEntries(ReadRows(rows));
    FromEntriesOrder(entries);
  }

  /** The intermediate dictionary is keyed by the tag ids of the rows read. */
  lemma TagTableKeys(rows: seq<TagRow>, dic: Dict<string, TagInfo>)
    requires TagTable(rows) == Some(dic)
    ensures forall id :: id in dic.items <==> exists k :: 0 <= k < |rows| && k < MAX_TAGS && TagIdOf(rows[k].href) == Some(id)
  {
    var read := ReadRows(rows);
    var entries := TagEntries(read);
    FromEntriesKeys(entries);
    forall id
      ensures id in Keys(entries) <==> exists k :: 0 <= k < |rows| && k < MAX_TAGS && TagIdOf(rows[k].href) == Some(id)
    {
      TagEntriesKeys(read, id);
      ReadRowsIds(rows, id);
    }
  }

  /** The rows read carry the tag ids of the first MAX_TAGS rows. */
  lemma ReadRowsIds(rows: seq<TagRow>, id: string)
    ensures (exists k :: 0 <= k < |ReadRows(rows)| && TagIdOf(ReadRows(rows)[k].href) == Some(id)) <==>
      exists k :: 0 <= k < |rows| && k < MAX_TAGS && TagIdOf(rows[k].href) == Some(id)
  {
    var read := ReadRows(rows);
    if exists k :: 0 <= k < |rows| && k < MAX_TAGS && TagIdOf(rows[k].href) == Some(id) {
      var k :| 0 <= k < |rows| && k < MAX_TAGS && TagIdOf(rows[k].href) == Some(id);
      assert read[k] == rows[k];
    }
    if exists k :: 0 <= k < |read| && TagIdOf(read[k].href) == Some(id) {
      var k :| 0 <= k < |read| && TagIdOf(read[k].href) == Some(id);
      assert read[k] == rows[k];
    }
  }

  /** The keys assigned by the first loop are the tag ids of the rows, in row order. */
  lemma TagEntriesKeys(read: seq<TagRow>, id: string)
    requires AllLinked(read)
    ensures id in Keys(TagEntries(read)) <==> exists k :: 0 <= k < |read| && TagIdOf(read[k].href) == Some(id)
  {
    var keys := Keys(TagEntries(read));
    if id in keys {
      var k :| 0 <= k < |keys| && keys[k] == id;
      assert TagIdOf(read[k].href) == Some(id);
    }
    if exists k :: 0 <= k < |read| && TagIdOf(read[k].href) == Some(id) {
      var k :| 0 <= k < |read| && TagIdOf(read[k].href) == Some(id);
      assert keys[k] == id;
    }
  }

  /** Each entry of the intermediate dictionary records its own key as `tag_id`. */
  lemma TagTableTagIds(rows: seq<TagRow>, dic: Dict<string, TagInfo>)
    requires TagTable(rows) == Some(dic)
    ensures forall id :: id in dic.items ==> dic.items[id].tagId == id
  {
    var entries := TagEntries(ReadRows(rows));
    forall id | id in dic.items
      ensures dic.items[id].tagId == id
    {
      FromEntriesValue(entries, id);
    }
  }

  /** A tag id met on several of the rows read keeps the names of the last of them. */
  lemma TagTableLastWins(rows: seq<TagRow>, dic: Dict<string, TagInfo>, k: nat)
    requires TagTable(rows) == Some(dic)
    requires k < |rows| && k < MAX_TAGS
    requires forall j :: k < j < |rows| && j < MAX_TAGS ==> TagIdOf(rows[j].href) != TagIdOf(rows[k].href)
    ensures Linked(rows[k]) && TagIdOf(rows[k].href).value in dic.items
    ensures dic.items[TagIdOf(rows[k].href).value] == TagInfo(rows[k].korName, rows[k].engName, TagIdOf(rows[k].href).value)
  {
    var read := ReadRows(rows);
    var entries := TagEntries(read);
    assert read[k] == rows[k];
    forall j | k < j < |entries|
      ensures entries[j].0 != entries[k].0
    {
      assert read[j] == rows[j];
      assert TagIdOf(read[j].href) != TagIdOf(read[k].href);
    }
    FromEntriesLastWins(entries, k);
  }

  /** The saved dictionary lists the tags of `dic` in the same order, each with its names and
      the problem list `get_prob_list` gives for it. */
  lemma ProblemTableShape(dic: Dict<string, TagInfo>, site: string -> Listing)
    requires dic.Valid()
    requires forall id :: id in dic.items ==> dic.items[id].tagId == id
    ensures FromEntries(ProblemEntries(dic, site)).order == dic.order
    ensures forall id :: id in FromEntries(ProblemEntries(dic, site)).items <==> id in dic.items
    ensures forall id :: id in dic.items ==>
      FromEntries(ProblemEntries(dic, site)).items[id] ==
        TagProblems(dic.items[id].korName, dic.items[id].engName, ProbList(site(id)))
  {
    var entries := ProblemEntries(dic, site);
    assert Keys(entries) == dic.order;
    FromDistinctEntries(entries);
    forall id | id in dic.items
      ensures id in FromEntries(entries).items
      ensures FromEntries(entries).items[id] == TagProblems(dic.items[id].korName, dic.items[id].engName, ProbList(site(id)))
    {
      var k :| 0 <= k < |dic.order| && dic.order[k] == id;
      assert entries[k].0 == id;
    }
  }

  /** What `load_from_web` saves: at most MAX_TAGS tags, in the order of `dic`, each with at
      most LIST_SIZE problems, namely the problem list of that tag. */
  lemma LoadResultShape(rows: seq<TagRow>, site: string -> Listing)
    requires LoadResult(rows, site).Some?
    ensures TagTable(rows).Some?
    ensures LoadResult(rows, site).value.order == TagTable(rows).value.order
    ensures |LoadResult(rows, site).value.order| <= MAX_TAGS
    ensures forall id :: id in LoadResult(rows, site).value.items <==> id in TagTable(rows).value.items
    ensures forall id :: id in LoadResult(rows, site).value.items ==>
      LoadResult(rows, site).value.items[id].probList == ProbList(site(id)) &&
      |LoadResult(rows, site).value.items[id].probList| <= LIST_SIZE
  {
    var dic := TagTable(rows).value;
    TagTableSize(rows, dic);
    TagTableTagIds(rows, dic);
    ProblemTableShape(dic, site);
    forall id | id in dic.items
      ensures |ProbList(site(id))| <= LIST_SIZE
    {
      ProbListProperties(site(id));
    }
  }

  /** The first loop of `load_from_web`: for each of at most MAX_TAGS rows, split the tag id
      out of the link and assign `dic[tag_id]`; a link without the separator raises. */
  method ReadTagTable(rows: seq<TagRow>) returns (r: Option<Dict<string, TagInfo>>)
    ensures r == TagTable(rows)
  {
    var iter := 0;
    var dic: Dict<string, TagInfo> := Dict([], map[]);
    for k := 0 to |rows|
      invariant iter == k <= MAX_TAGS
      invariant AllLinked(rows[..k])
      invariant dic == FromEntries(TagEntries(rows[..k]))
    {
      iter := iter + 1;
      if iter > MAX_TAGS {
        assert ReadRows(rows) == rows[..k];
        return Some(dic);
      }
      var link := rows[k].href;
      var tagId := TagIdOf(link);
      if tagId.None? {
        assert !AllLinked(ReadRows(rows)) by {
          assert ReadRows(rows)[k] == rows[k];
        }
        return None;
      }
      TagEntriesStep(rows, k);
      dic := dic.Put(tagId.value, TagInfo(rows[k].korName, rows[k].engName, tagId.value));
    }
    assert rows[..|rows|] == rows;
    r := Some(dic);
  }

  /** The second loop of `load_from_web`: for each value of `dic`, in order, fetch the tag's
      problem list and assign `dic2[tag_id]`. `site(t)` is the listing the browser sees for
      tag `t`. */
  method BuildProblemTable(dic: Dict<string, TagInfo>, site: string -> Listing) returns (dic2: Dict<string, TagProblems>)
    requires dic.Valid()
    ensures dic2 == FromEntries(ProblemEntries(dic, site))
  {
    dic2 := Dict([], map[]);
    for k := 0 to |dic.order|
      invariant dic2 == FromEntries(ProblemEntries(dic, site)[..k])
    {
      var d := dic.items[dic.order[k]];
      var parseResult := GetProbList(site(d.tagId));
      ghost var done := ProblemEntries(dic, site)[..k + 1];
      assert done[..k] == ProblemEntries(dic, site)[..k];
      assert done[k] == (d.tagId, TagProblems(d.korName, d.engName, parseResult));
      dic2 := dic2.Put(d.tagId, TagProblems(d.korName, d.engName, parseResult));
    }
    assert ProblemEntries(dic, site)[..|dic.order|] == ProblemEntries(dic, site);
  }

  /** `load_from_web`, up to saving the result. */
  method LoadFromWeb(rows: seq<TagRow>, site: string -> Listing) returns (r: Option<Dict<string, TagProblems>>)
    ensures r == LoadResult(rows, site)
  {
    var dic := ReadTagTable(rows);
    if dic.None? {
      return None;
    }
    var dic2 := BuildProblemTable(dic.value, site);
    r := Some(dic2);
  }
}
