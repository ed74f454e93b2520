/** Feature search of the SCope server (`SCope.get_features`): a query is
    matched against a dataset's search space, the matches are promoted by four
    literal front-insertion passes, collapsed by (canonical name, category) and
    given a description each.

    The search space is built by an external collaborator and enters as the
    parameter `spaceOf`; the two cross-species alias tables enter as maps; case
    folding (`str.casefold`) enters as the parameter `fold`. */
module FeatureSearch {
  import opened Results
  import opened Sequences
  import opened Text

  /** One entry of the search space: the key triple `(folded, display,
      category)` — `r[0]`, `r[1]`, `r[2]` in the source — and the translated
      key the space maps it to (`search_space[r]`). */
  datatype Candidate = Candidate(folded: string, display: string, category: string, translated: string)

  /** One ortholog of a cross-species alias table: the Drosophila name and its
      identity percentage, kept as the text the reply shows. */
  datatype Alias = Alias(name: string, pct: string)

  type AliasTable = map<string, seq<Alias>>

  /** Native search, or a search through the human or the mouse alias table. */
  datatype Namespace = Native | Human | Mouse

  /** A key of the collapsed results: `(canonical, category)`. */
  datatype GroupKey = GroupKey(canonical: string, category: string)

  /** One cross-species result row before collapsing: an alias of a ranked
      candidate. */
  datatype Row = Row(key: GroupKey, display: string, pct: string)

  /** The reply: three parallel lists. */
  datatype Features = Features(feature: seq<string>, featureType: seq<string>, featureDescription: seq<string>)

  /** The KeyError raised when a translated key has no entry in the alias table. */
  datatype SearchError = MissingAlias(key: string)

  const HumanMarker: string := "hsap\\"
  const MouseMarker: string := "mmus\\"

  // ---------------------------------------------------------------------------
  // Namespace selection and the substring filter

  /** The namespace a query selects and the query left to match. */
  function ParseQuery(query: string): (r: (Namespace, string))
    ensures r.0 == Human <==> StartsWith(query, HumanMarker)
    ensures r.0 == Mouse <==> !StartsWith(query, HumanMarker) && StartsWith(query, MouseMarker)
    ensures r.0 == Human ==> query == HumanMarker + r.1
    ensures r.0 == Mouse ==> query == MouseMarker + r.1
    ensures r.0 == Native ==> r.1 == query
  {
    if StartsWith(query, HumanMarker) then
      assert query == query[..5] + query[5..];
      (Human, query[5..])
    else if StartsWith(query, MouseMarker) then
      assert query == query[..5] + query[5..];
      (Mouse, query[5..])
    else (Native, query)
  }

  /** `queryCF in x[0]` */
  function KeyContains(queryCF: string): Candidate -> bool {
    (c: Candidate) => Contains(c.folded, queryCF)
  }

  /** The unranked matches: the candidates whose folded key contains the
      folded query, in search-space order. */
  function Matches(space: seq<Candidate>, queryCF: string): (res: seq<Candidate>)
    ensures res == Gather(space, Positions(space, KeyContains(queryCF)))
  {
    FilterIsGatherOfPositions(space, KeyContains(queryCF));
    Filter(space, KeyContains(queryCF))
  }

  lemma {:induction false} FilterAllPass<T>(s: seq<T>, p: T -> bool)
    requires forall j :: 0 <= j < |s| ==> p(s[j])
    ensures Filter(s, p) == s
  {
    if s != [] {
      var init := s[..|s| - 1];
      assert forall j :: 0 <= j < |init| ==> init[j] == s[j];
      FilterAllPass(init, p);
      assert p(s[|s| - 1]);
      assert init + [s[|s| - 1]] == s;
    }
  }

  lemma {:induction false} EmptyIsContained(s: string)
    ensures Contains(s, "")
  {
    assert s[..0] == "";
  }

  /** An empty folded query keeps the whole search space, in order. */
  lemma EmptyQueryKeepsAll(space: seq<Candidate>)
    ensures Matches(space, "") == space
  {
    forall j | 0 <= j < |space| ensures KeyContains("")(space[j]) {
      EmptyIsContained(space[j].folded);
    }
    FilterAllPass(space, KeyContains(""));
  }

  // ---------------------------------------------------------------------------
  // Promotion passes

  /** `[c[j]] + (c without its element j)`: pop index j and put it in front. */
  function MoveToFront<T>(c: seq<T>, j: nat): (r: seq<T>)
    requires j < |c|
    ensures |r| == |c| && r[0] == c[j]
  {
    [c[j]] + c[..j] + c[j + 1..]
  }

  lemma MoveToFrontPermutation<T>(c: seq<T>, j: nat)
    requires j < |c|
    ensures multiset(MoveToFront(c, j)) == multiset(c)
  {
    assert c == c[..j] + [c[j]] + c[j + 1..];
  }

  /** The rest of a pass once its first hit has been handled: `it` is the list
      `enumerate` still walks (shortened once, by that first pop), `j` its
      next index, `cur` the fresh list `res` names now. Each later hit at `j`
      pops `cur[j]`, which need not be the element just examined. */
  function Continue<T>(it: seq<T>, j: nat, cur: seq<T>, m: T -> bool): (r: seq<T>)
    requires |it| < |cur|
    ensures |r| == |cur|
    decreases |it| - j
  {
    if j >= |it| then cur
    else Continue(it, j + 1, if m(it[j]) then MoveToFront(cur, j) else cur, m)
  }

  /** One promotion pass, as the source's `for n, r in enumerate(res)` loop
      behaves: with no hit the list is unchanged; the first hit (at index
      `a`) is popped from the iterated list itself and put in front of it,
      which skips the element after it; the remaining hits are handled by
      `Continue`. */
  function Pass<T>(s: seq<T>, m: T -> bool): (r: seq<T>)
    ensures |r| == |s|
  {
    var a := FirstMatch(s, m);
    if a == |s| then s
    else
      var rest := s[..a] + s[a + 1..];
      Continue(rest, a + 1, [s[a]] + rest, m)
  }

  lemma {:induction false} ContinuePermutation<T>(it: seq<T>, j: nat, cur: seq<T>, m: T -> bool)
    requires |it| < |cur|
    ensures multiset(Continue(it, j, cur, m)) == multiset(cur)
    decreases |it| - j
  {
    if j < |it| {
      if m(it[j]) {
        MoveToFrontPermutation(cur, j);
      }
      ContinuePermutation(it, j + 1, if m(it[j]) then MoveToFront(cur, j) else cur, m);
    }
  }

  lemma {:induction false} ContinueNoHit<T>(it: seq<T>, j: nat, cur: seq<T>, m: T -> bool)
    requires |it| < |cur|
    requires forall k :: j <= k < |it| ==> !m(it[k])
    ensures Continue(it, j, cur, m) == cur
    decreases |it| - j
  {
    if j < |it| {
      ContinueNoHit(it, j + 1, cur, m);
    }
  }

  /** Every pass returns a permutation of its input. */
  lemma PassPermutation<T>(s: seq<T>, m: T -> bool)
    ensures multiset(Pass(s, m)) == multiset(s)
    ensures |Pass(s, m)| == |s|
  {
    var a := FirstMatch(s, m);
    if a < |s| {
      var rest := s[..a] + s[a + 1..];
      assert [s[a]] + rest == MoveToFront(s, a);
      MoveToFrontPermutation(s, a);
      ContinuePermutation(rest, a + 1, [s[a]] + rest, m);
    }
  }

  /** A pass that matches nothing leaves the list as it was. */
  lemma PassNoMatch<T>(s: seq<T>, m: T -> bool)
    requires Count(s, m) == 0
    ensures Pass(s, m) == s
  {
  }

  /** A pass that matches exactly one element moves it to the front and keeps
      the others in order. */
  lemma PassSingleMatch<T>(s: seq<T>, m: T -> bool, k: nat)
    requires Count(s, m) == 1 && k < |s| && m(s[k])
    ensures Pass(s, m) == [s[k]] + s[..k] + s[k + 1..]
  {
    CountOneUnique(s, m, k);
    assert FirstMatch(s, m) == k;
    var rest := s[..k] + s[k + 1..];
    assert Pass(s, m) == Continue(rest, k + 1, [s[k]] + rest, m);
    forall j | k + 1 <= j < |rest| ensures !m(rest[j]) {
      assert rest[j] == s[j + 1];
    }
    ContinueNoHit(rest, k + 1, [s[k]] + rest, m);
    assert [s[k]] + rest == [s[k]] + s[..k] + s[k + 1..];
  }

  /** The loop of one pass, literally. `iterated` is the list object
      `enumerate` walks; `res` starts as that same object (`aliased`) and
      becomes a fresh list at the first hit. */
  method PromotionPass<T>(s: seq<T>, m: T -> bool) returns (res: seq<T>)
    ensures res == Pass(s, m)
  {
    var iterated := s;
    res := s;
    var aliased := true;
    var n := 0;
    while n < |iterated|
      invariant aliased ==> iterated == s && res == s && n <= |s|
      invariant aliased ==> forall j :: 0 <= j < n ==> !m(s[j])
      invariant !aliased ==> FirstMatch(s, m) < |s| && FirstMatch(s, m) < n <= |iterated| + 1
      invariant !aliased ==> iterated == s[..FirstMatch(s, m)] + s[FirstMatch(s, m) + 1..]
      invariant !aliased ==> |res| == |iterated| + 1 && Continue(iterated, n, res, m) == Pass(s, m)
      decreases |iterated| - n
    {
      if m(iterated[n]) {
        if aliased {
          // res.pop(n) on the list being iterated, then res = [r] + res
          var r := iterated[n];
          iterated := iterated[..n] + iterated[n + 1..];
          res := [r] + iterated;
          aliased := false;
        } else {
          // res.pop(n) on the fresh list, then res = [r] + res
          var r := res[n];
          res := [r] + res[..n] + res[n + 1..];
        }
      }
      n := n + 1;
    }
  }

  /** `query in r[0]`: the raw query occurs in the folded key. */
  function RawInKey(query: string): Candidate -> bool {
    (c: Candidate) => Contains(c.folded, query)
  }

  /** `r[0].startswith(queryCF)` */
  function KeyStartsWith(queryCF: string): Candidate -> bool {
    (c: Candidate) => StartsWith(c.folded, queryCF)
  }

  /** `r[0] == queryCF` */
  function KeyIs(queryCF: string): Candidate -> bool {
    (c: Candidate) => c.folded == queryCF
  }

  /** `r[1] == query` */
  function DisplayIs(query: string): Candidate -> bool {
    (c: Candidate) => c.display == query
  }

  /** The four passes in source order; the last pass wins the front. */
  function Rank(res: seq<Candidate>, query: string, queryCF: string): (ranked: seq<Candidate>)
    ensures |ranked| == |res|
  {
    Pass(Pass(Pass(Pass(res, RawInKey(query)), KeyStartsWith(queryCF)), KeyIs(queryCF)), DisplayIs(query))
  }

  /** Ranking only reorders the matches. */
  lemma RankPermutation(res: seq<Candidate>, query: string, queryCF: string)
    ensures multiset(Rank(res, query, queryCF)) == multiset(res)
    ensures |Rank(res, query, queryCF)| == |res|
  {
    var s1 := Pass(res, RawInKey(query));
    var s2 := Pass(s1, KeyStartsWith(queryCF));
    var s3 := Pass(s2, KeyIs(queryCF));
    PassPermutation(res, RawInKey(query));
    PassPermutation(s1, KeyStartsWith(queryCF));
    PassPermutation(s2, KeyIs(queryCF));
    PassPermutation(s3, DisplayIs(query));
  }

  /** A unique candidate whose display name is the raw query ranks first. */
  lemma RankUniqueDisplayFirst(res: seq<Candidate>, query: string, queryCF: string, k: nat)
    requires k < |res| && res[k].display == query
    requires Count(res, DisplayIs(query)) == 1
    ensures Rank(res, query, queryCF)[0] == res[k]
  {
    var s1 := Pass(res, RawInKey(query));
    var s2 := Pass(s1, KeyStartsWith(queryCF));
    var s3 := Pass(s2, KeyIs(queryCF));
    PassPermutation(res, RawInKey(query));
    PassPermutation(s1, KeyStartsWith(queryCF));
    PassPermutation(s2, KeyIs(queryCF));
    CountPermutation(res, s3, DisplayIs(query));
    assert res[k] in multiset(s3);
    var k' :| 0 <= k' < |s3| && s3[k'] == res[k];
    PassSingleMatch(s3, DisplayIs(query), k');
  }

  /** The four passes of the source, run one after another. */
  method RankMatches(res: seq<Candidate>, query: string, queryCF: string) returns (ranked: seq<Candidate>)
    ensures ranked == Rank(res, query, queryCF)
  {
    ranked := PromotionPass(res, RawInKey(query));
    ranked := PromotionPass(ranked, KeyStartsWith(queryCF));
    ranked := PromotionPass(ranked, KeyIs(queryCF));
    ranked := PromotionPass(ranked, DisplayIs(query));
  }

  // ---------------------------------------------------------------------------
  // Native collapse: (translated key, category) -> display names

  function KeyOf(c: Candidate): GroupKey {
    GroupKey(c.translated, c.category)
  }

  /** The collapse key of every ranked candidate, in ranked order. */
  function GroupKeys(rs: seq<Candidate>): (ks: seq<GroupKey>)
  {
    seq(|rs|, i requires 0 <= i < |rs| => KeyOf(rs[i]))
  }

  /** The display names the native collapse appends under key `g`, in order. */
  function Members(rs: seq<Candidate>, g: GroupKey): (names: seq<string>)
    ensures |names| <= |rs|
  {
    if rs == [] then []
    else
      var last := rs[|rs| - 1];
      Members(rs[..|rs| - 1], g) + (if KeyOf(last) == g then [last.display] else [])
  }

  lemma {:induction false} MembersOfUnseen(rs: seq<Candidate>, g: GroupKey)
    requires g !in GroupKeys(rs)
    ensures Members(rs, g) == []
  {
    if rs != [] {
      assert GroupKeys(rs) == GroupKeys(rs[..|rs| - 1]) + [KeyOf(rs[|rs| - 1])];
      MembersOfUnseen(rs[..|rs| - 1], g);
    }
  }

  /** Total size of the groups listed in `order`. */
  function GroupSizes(order: seq<GroupKey>, rs: seq<Candidate>): nat {
    if order == [] then 0
    else GroupSizes(order[..|order| - 1], rs) + |Members(rs, order[|order| - 1])|
  }

  lemma {:induction false} GroupSizesSnoc(order: seq<GroupKey>, rs: seq<Candidate>, c: Candidate)
    requires Distinct(order)
    ensures GroupSizes(order, rs + [c]) == GroupSizes(order, rs) + (if KeyOf(c) in order then 1 else 0)
  {
    assert (rs + [c])[..|rs|] == rs;
    if order != [] {
      var o' := order[..|order| - 1];
      assert KeyOf(c) in order <==> KeyOf(c) in o' || KeyOf(c) == order[|order| - 1];
      assert order[|order| - 1] in o' ==> false;
      GroupSizesSnoc(o', rs, c);
    }
  }

  lemma {:induction false} GroupSizesFresh(order: seq<GroupKey>, rs: seq<Candidate>, g: GroupKey)
    requires g !in order
    ensures GroupSizes(order + [g], rs) == GroupSizes(order, rs) + |Members(rs, g)|
  {
    assert (order + [g])[..|order|] == order;
  }

  /** Every ranked display name lands in exactly one native group: the group
      sizes add up to the number of ranked candidates. */
  lemma {:induction false} GroupSizesSum(rs: seq<Candidate>)
    ensures GroupSizes(Dedup(GroupKeys(rs)), rs) == |rs|
  {
    if rs != [] {
      var rs' := rs[..|rs| - 1];
      var c := rs[|rs| - 1];
      assert rs == rs' + [c];
      assert GroupKeys(rs)[..|rs| - 1] == GroupKeys(rs');
      var d' := Dedup(GroupKeys(rs'));
      GroupSizesSum(rs');
      DedupDistinct(GroupKeys(rs'));
      GroupSizesSnoc(d', rs', c);
      if KeyOf(c) !in d' {
        GroupSizesFresh(d', rs, KeyOf(c));
        MembersOfUnseen(rs', KeyOf(c));
      }
    }
  }

  /** `order`/`groups` is the ordered dictionary the native collapse builds
      from `rs`. */
  ghost predicate NativeCollapsed(rs: seq<Candidate>, order: seq<GroupKey>, groups: map<GroupKey, seq<string>>) {
    && order == Dedup(GroupKeys(rs))
    && (forall g :: g in groups <==> g in order)
    && (forall g :: g in groups ==> groups[g] == Members(rs, g))
  }

  lemma GroupKeysSnoc(rs: seq<Candidate>, c: Candidate)
    ensures GroupKeys(rs + [c]) == GroupKeys(rs) + [KeyOf(c)]
  {
    assert (rs + [c])[..|rs|] == rs;
  }

  lemma MembersSnoc(rs: seq<Candidate>, c: Candidate, g: GroupKey)
    ensures Members(rs + [c], g) == Members(rs, g) + (if KeyOf(c) == g then [c.display] else [])
  {
    assert (rs + [c])[..|rs|] == rs;
  }

  lemma NewKeyNotSeen(rs: seq<Candidate>, c: Candidate, order: seq<GroupKey>, groups: map<GroupKey, seq<string>>)
    requires NativeCollapsed(rs, order, groups) && KeyOf(c) !in groups
    ensures KeyOf(c) !in GroupKeys(rs)
  {
    assert KeyOf(c) !in order;
  }

  lemma NativeCollapseNew(rs: seq<Candidate>, c: Candidate, order: seq<GroupKey>, groups: map<GroupKey, seq<string>>)
    requires NativeCollapsed(rs, order, groups) && KeyOf(c) !in groups
    ensures NativeCollapsed(rs + [c], order + [KeyOf(c)], groups[KeyOf(c) := [c.display]])
  {
    var k := KeyOf(c);
    NewKeyNotSeen(rs, c, order, groups);
    NewOrder(rs, c);
    NewGroups(rs, c, groups);
  }

  lemma NewOrder(rs: seq<Candidate>, c: Candidate)
    requires KeyOf(c) !in GroupKeys(rs)
    ensures Dedup(GroupKeys(rs + [c])) == Dedup(GroupKeys(rs)) + [KeyOf(c)]
  {
    GroupKeysSnoc(rs, c);
    DedupSnoc(GroupKeys(rs), KeyOf(c));
  }

  lemma NewGroups(rs: seq<Candidate>, c: Candidate, groups: map<GroupKey, seq<string>>)
    requires KeyOf(c) !in GroupKeys(rs)
    requires forall g :: g in groups ==> groups[g] == Members(rs, g)
    ensures forall g :: g in groups[KeyOf(c) := [c.display]] ==> groups[KeyOf(c) := [c.display]][g] == Members(rs + [c], g)
  {
    var k := KeyOf(c);
    MembersOfUnseen(rs, k);
    forall g | g in groups[k := [c.display]] ensures groups[k := [c.display]][g] == Members(rs + [c], g) {
      MembersSnoc(rs, c, g);
    }
  }

  lemma NativeCollapseOld(rs: seq<Candidate>, c: Candidate, order: seq<GroupKey>, groups: map<GroupKey, seq<string>>)
    requires NativeCollapsed(rs, order, groups) && KeyOf(c) in groups
    ensures NativeCollapsed(rs + [c], order, groups[KeyOf(c) := groups[KeyOf(c)] + [c.display]])
  {
    var k := KeyOf(c);
    var groups' := groups[k := groups[k] + [c.display]];
    assert k in order;
    OldOrder(rs, c);
    OldGroups(rs, c, groups);
    assert groups'.Keys == groups.Keys;
  }

  lemma OldOrder(rs: seq<Candidate>, c: Candidate)
    requires KeyOf(c) in Dedup(GroupKeys(rs))
    ensures Dedup(GroupKeys(rs + [c])) == Dedup(GroupKeys(rs))
  {
    GroupKeysSnoc(rs, c);
    DedupSnoc(GroupKeys(rs), KeyOf(c));
  }

  lemma OldGroups(rs: seq<Candidate>, c: Candidate, groups: map<GroupKey, seq<string>>)
    requires KeyOf(c) in groups
    requires forall g :: g in groups ==> groups[g] == Members(rs, g)
    ensures var groups' := groups[KeyOf(c) := groups[KeyOf(c)] + [c.display]];
      forall g :: g in groups' ==> groups'[g] == Members(rs + [c], g)
  {
    var groups' := groups[KeyOf(c) := groups[KeyOf(c)] + [c.display]];
    forall g | g in groups' ensures groups'[g] == Members(rs + [c], g) {
      MembersSnoc(rs, c, g);
    }
  }

  /** The collapse loop of the native namespace: an ordered dictionary from
      `(translated, category)` to the display names, kept as its key order and
      a map. */
  method CollapseNative(ranked: seq<Candidate>) returns (order: seq<GroupKey>, groups: map<GroupKey, seq<string>>)
    ensures NativeCollapsed(ranked, order, groups)
  {
    order := [];
    groups := map[];
    for i := 0 to |ranked|
      invariant NativeCollapsed(ranked[..i], order, groups)
    {
      var r := ranked[i];
      var key := KeyOf(r);
      assert ranked[..i + 1] == ranked[..i] + [r];
      if key !in groups {
        NativeCollapseNew(ranked[..i], r, order, groups);
        order := order + [key];
        groups := groups[key := [r.display]];
      } else {
        NativeCollapseOld(ranked[..i], r, order, groups);
        groups := groups[key := groups[key] + [r.display]];
      }
    }
    assert ranked[..|ranked|] == ranked;
  }

  // ---------------------------------------------------------------------------
  // Cross-species collapse: (alias, category) -> first (display, pct)

  /** The alias rows of one candidate. */
  function CandidateRows(c: Candidate, aliases: seq<Alias>): (rows: seq<Row>)
    ensures |rows| == |aliases|
    ensures forall j :: 0 <= j < |aliases| ==>
      rows[j] == Row(GroupKey(aliases[j].name, c.category), c.display, aliases[j].pct)
  {
    seq(|aliases|, j requires 0 <= j < |aliases| =>
      Row(GroupKey(aliases[j].name, c.category), c.display, aliases[j].pct))
  }

  /** Every ranked candidate fanned out into its alias rows, in order; the
      first candidate (in ranked order) whose translated key is missing from
      the table raises KeyError. */
  function FanOut(rs: seq<Candidate>, table: AliasTable): (r: Result<seq<Row>, SearchError>)
    ensures r.Failure? <==> exists i :: 0 <= i < |rs| && rs[i].translated !in table
  {
    if rs == [] then Success([])
    else
      var rs' := rs[..|rs| - 1];
      var last := rs[|rs| - 1];
      assert forall i :: 0 <= i < |rs'| ==> rs'[i] == rs[i];
      match FanOut(rs', table)
      case Failure(e) => Failure(e)
      case Success(rows) =>
        if last.translated in table then Success(rows + CandidateRows(last, table[last.translated]))
        else Failure(MissingAlias(last.translated))
  }

  function RowKeys(rows: seq<Row>): (ks: seq<GroupKey>)
    ensures |ks| == |rows|
    ensures forall i :: 0 <= i < |rows| ==> ks[i] == rows[i].key
  {
    if rows == [] then [] else RowKeys(rows[..|rows| - 1]) + [rows[|rows| - 1].key]
  }

  /** The row whose `(display, pct)` a collapse key keeps: the first with that key. */
  function FirstRow(rows: seq<Row>, g: GroupKey): (row: Row)
    requires g in RowKeys(rows)
    ensures row in rows && row.key == g
  {
    rows[FirstIndex(RowKeys(rows), g)]
  }

  lemma FirstRowSnoc(rows: seq<Row>, x: Row, g: GroupKey)
    requires g in RowKeys(rows + [x])
    ensures RowKeys(rows + [x]) == RowKeys(rows) + [x.key]
    ensures g in RowKeys(rows) ==> FirstRow(rows + [x], g) == FirstRow(rows, g)
    ensures g !in RowKeys(rows) ==> FirstRow(rows + [x], g) == x
  {
    assert (rows + [x])[..|rows|] == rows;
    FirstIndexSnoc(RowKeys(rows), x.key, g);
  }

  /** `order`/`chosen` is the ordered dictionary the cross-species collapse
      builds from `rows`: every key once, in order of first occurrence, with
      the `(display, pct)` of its first row. */
  ghost predicate CrossCollapsed(rows: seq<Row>, order: seq<GroupKey>, chosen: map<GroupKey, (string, string)>) {
    && order == Dedup(RowKeys(rows))
    && (forall g :: g in chosen <==> g in order)
    && (forall g :: g in chosen ==> g in RowKeys(rows) && chosen[g] == (FirstRow(rows, g).display, FirstRow(rows, g).pct))
  }

  lemma RowKeysSnoc(rows: seq<Row>, x: Row)
    ensures RowKeys(rows + [x]) == RowKeys(rows) + [x.key]
  {
    assert (rows + [x])[..|rows|] == rows;
  }

  /** A row with an unseen key opens a new entry holding that row. */
  lemma CrossCollapseNew(rows: seq<Row>, x: Row, order: seq<GroupKey>, chosen: map<GroupKey, (string, string)>)
    requires CrossCollapsed(rows, order, chosen) && x.key !in chosen
    ensures CrossCollapsed(rows + [x], order + [x.key], chosen[x.key := (x.display, x.pct)])
  {
    assert x.key !in RowKeys(rows) by {
      assert x.key !in order;
    }
    CrossNewOrder(rows, x);
    CrossNewChosen(rows, x, chosen);
  }

  lemma CrossNewOrder(rows: seq<Row>, x: Row)
    requires x.key !in RowKeys(rows)
    ensures Dedup(RowKeys(rows + [x])) == Dedup(RowKeys(rows)) + [x.key]
  {
    RowKeysSnoc(rows, x);
    DedupSnoc(RowKeys(rows), x.key);
  }

  lemma CrossNewChosen(rows: seq<Row>, x: Row, chosen: map<GroupKey, (string, string)>)
    requires x.key !in RowKeys(rows)
    requires forall g :: g in chosen ==> g in RowKeys(rows) && chosen[g] == (FirstRow(rows, g).display, FirstRow(rows, g).pct)
    ensures forall g :: g in chosen[x.key := (x.display, x.pct)] ==>
      g in RowKeys(rows + [x]) &&
      chosen[x.key := (x.display, x.pct)][g] == (FirstRow(rows + [x], g).display, FirstRow(rows + [x], g).pct)
  {
    RowKeysSnoc(rows, x);
    forall g | g in chosen[x.key := (x.display, x.pct)]
      ensures g in RowKeys(rows + [x])
      ensures chosen[x.key := (x.display, x.pct)][g] == (FirstRow(rows + [x], g).display, FirstRow(rows + [x], g).pct)
    {
      FirstRowSnoc(rows, x, g);
    }
  }

  /** A row whose key is already present leaves the entries as they are. */
  lemma CrossCollapseOld(rows: seq<Row>, x: Row, order: seq<GroupKey>, chosen: map<GroupKey, (string, string)>)
    requires CrossCollapsed(rows, order, chosen) && x.key in chosen
    ensures CrossCollapsed(rows + [x], order, chosen)
  {
    assert x.key in RowKeys(rows);
    CrossOldOrder(rows, x);
    CrossOldChosen(rows, x, chosen);
  }

  lemma CrossOldOrder(rows: seq<Row>, x: Row)
    requires x.key in RowKeys(rows)
    ensures Dedup(RowKeys(rows + [x])) == Dedup(RowKeys(rows))
  {
    RowKeysSnoc(rows, x);
    DedupSnoc(RowKeys(rows), x.key);
  }

  lemma CrossOldChosen(rows: seq<Row>, x: Row, chosen: map<GroupKey, (string, string)>)
    requires forall g :: g in chosen ==> g in RowKeys(rows) && chosen[g] == (FirstRow(rows, g).display, FirstRow(rows, g).pct)
    ensures forall g :: g in chosen ==>
      g in RowKeys(rows + [x]) && chosen[g] == (FirstRow(rows + [x], g).display, FirstRow(rows + [x], g).pct)
  {
    RowKeysSnoc(rows, x);
    forall g | g in chosen
      ensures g in RowKeys(rows + [x])
      ensures chosen[g] == (FirstRow(rows + [x], g).display, FirstRow(rows + [x], g).pct)
    {
      FirstRowSnoc(rows, x, g);
    }
  }

  /** The inner collapse loop: the alias rows of one candidate, in order. */
  method CollapseAliases(c: Candidate, aliases: seq<Alias>, order0: seq<GroupKey>,
                         chosen0: map<GroupKey, (string, string)>, ghost rows0: seq<Row>)
    returns (order: seq<GroupKey>, chosen: map<GroupKey, (string, string)>)
    requires CrossCollapsed(rows0, order0, chosen0)
    ensures CrossCollapsed(rows0 + CandidateRows(c, aliases), order, chosen)
  {
    order, chosen := order0, chosen0;
    ghost var rows := rows0;
    for j := 0 to |aliases|
      invariant rows == rows0 + CandidateRows(c, aliases)[..j]
      invariant CrossCollapsed(rows, order, chosen)
    {
      var row := Row(GroupKey(aliases[j].name, c.category), c.display, aliases[j].pct);
      CandidateRowsPrefix(c, aliases, j);
      order, chosen := CollapseRow(row, order, chosen, rows);
      rows := rows + [row];
    }
    assert CandidateRows(c, aliases)[..|aliases|] == CandidateRows(c, aliases);
  }

  lemma CandidateRowsPrefix(c: Candidate, aliases: seq<Alias>, j: nat)
    requires j < |aliases|
    ensures CandidateRows(c, aliases)[..j + 1] ==
      CandidateRows(c, aliases)[..j] + [Row(GroupKey(aliases[j].name, c.category), c.display, aliases[j].pct)]
  {
  }

  /** One step of the inner collapse loop: `if key not in collapsed: ...`. */
  method CollapseRow(row: Row, order0: seq<GroupKey>, chosen0: map<GroupKey, (string, string)>, ghost rows: seq<Row>)
    returns (order: seq<GroupKey>, chosen: map<GroupKey, (string, string)>)
    requires CrossCollapsed(rows, order0, chosen0)
    ensures CrossCollapsed(rows + [row], order, chosen)
  {
    if row.key !in chosen0 {
      CrossCollapseNew(rows, row, order0, chosen0);
      order := order0 + [row.key];
      chosen := chosen0[row.key := (row.display, row.pct)];
    } else {
      CrossCollapseOld(rows, row, order0, chosen0);
      order, chosen := order0, chosen0;
    }
  }

  /** The collapse loops of a cross-species namespace. */
  method CollapseCross(ranked: seq<Candidate>, table: AliasTable)
    returns (r: Result<(seq<GroupKey>, map<GroupKey, (string, string)>), SearchError>)
    ensures FanOut(ranked, table).Failure? ==> r == Failure(FanOut(ranked, table).error)
    ensures FanOut(ranked, table).Success? ==> r.Success?
    ensures r.Success? ==> FanOut(ranked, table).Success?
    ensures r.Success? ==> CrossCollapsed(FanOut(ranked, table).value, r.value.0, r.value.1)
  {
    var order: seq<GroupKey> := [];
    var chosen: map<GroupKey, (string, string)> := map[];
    ghost var rows: seq<Row> := [];
    for i := 0 to |ranked|
      invariant FanOut(ranked[..i], table) == Success(rows)
      invariant CrossCollapsed(rows, order, chosen)
    {
      var c := ranked[i];
      assert ranked[..i + 1][..i] == ranked[..i];
      if c.translated !in table {
        assert FanOut(ranked[..i + 1], table) == Failure(MissingAlias(c.translated));
        FanOutFailurePropagates(ranked, i + 1, table);
        return Failure(MissingAlias(c.translated));
      }
      order, chosen := CollapseAliases(c, table[c.translated], order, chosen, rows);
      rows := rows + CandidateRows(c, table[c.translated]);
    }
    assert ranked[..|ranked|] == ranked;
    r := Success((order, chosen));
  }

  /** Once a prefix of the ranked list fails, the whole fan-out fails the same way. */
  lemma {:induction false} FanOutFailurePropagates(rs: seq<Candidate>, n: nat, table: AliasTable)
    requires n <= |rs| && FanOut(rs[..n], table).Failure?
    ensures FanOut(rs, table) == FanOut(rs[..n], table)
    decreases |rs| - n
  {
    if n < |rs| {
      assert rs[..n + 1][..n] == rs[..n];
      FanOutFailurePropagates(rs, n + 1, table);
    } else {
      assert rs[..n] == rs;
    }
  }

  // ---------------------------------------------------------------------------
  // Descriptions and the reply

  /** The synonyms a native group lists: its display names, sorted, with one
      occurrence of the canonical name removed. */
  function Synonyms(canonical: string, names: seq<string>): seq<string> {
    RemoveFirst(Sort(names), canonical)
  }

  /** The synonyms are the group's names less one occurrence of the
      canonical name, in sorted order. */
  lemma SynonymsSpec(canonical: string, names: seq<string>)
    ensures Sorted(Synonyms(canonical, names))
    ensures multiset(Synonyms(canonical, names)) == multiset(names) - multiset{canonical}
  {
    var sorted := Sort(names);
    SortSpec(names);
    if canonical in sorted {
      RemoveKeepsSorted(sorted, FirstIndex(sorted, canonical));
      RemoveFirstMultiset(sorted, canonical);
    } else {
      assert canonical !in multiset(names);
    }
  }

  lemma {:induction false} LexLeTransitive(a: string, b: string, c: string)
    requires LexLe(a, b) && LexLe(b, c)
    ensures LexLe(a, c)
  {
    if a != [] && b != [] && c != [] && a[0] == b[0] && b[0] == c[0] {
      LexLeTransitive(a[1..], b[1..], c[1..]);
    }
  }

  lemma RemoveKeepsSorted(s: seq<string>, k: nat)
    requires Sorted(s) && k < |s|
    ensures Sorted(s[..k] + s[k + 1..])
  {
    var r := s[..k] + s[k + 1..];
    forall i | 0 < i < |r| ensures LexLe(r[i - 1], r[i]) {
      if i == k {
        LexLeTransitive(s[k - 1], s[k], s[k + 1]);
      } else if i < k {
        assert r[i - 1] == s[i - 1] && r[i] == s[i];
      } else {
        assert r[i - 1] == s[i] && r[i] == s[i + 1];
      }
    }
  }

  /** The description of a native group. */
  function NativeDescription(canonical: string, names: seq<string>): (d: string)
  {
    var syn := Synonyms(canonical, names);
    if |syn| > 0 then "Synonym of: " + Join(", ", syn) else ""
  }

  /** A native description is empty exactly when the group has no name
      besides one occurrence of its canonical name; otherwise it lists the
      remaining names in sorted order after "Synonym of: ". */
  lemma NativeDescriptionSpec(canonical: string, names: seq<string>)
    ensures NativeDescription(canonical, names) == "" <==> multiset(names) <= multiset{canonical}
    ensures NativeDescription(canonical, names) != "" ==>
      exists syn :: Sorted(syn) && multiset(syn) == multiset(names) - multiset{canonical} &&
        NativeDescription(canonical, names) == "Synonym of: " + Join(", ", syn)
  {
    var syn := Synonyms(canonical, names);
    SynonymsSpec(canonical, names);
    if |syn| > 0 {
      assert syn[0] in multiset(syn);
      assert ("Synonym of: " + Join(", ", syn))[0] == 'S';
    } else {
      assert multiset(syn) == multiset{};
    }
  }

  /** The description of a cross-species row; `source` is "Human" or "Mouse". */
  function OrthologueDescription(source: string, row: Row): string {
    "Orthologue of " + row.display + ", " + row.pct + "% identity (" + source + " -> Drosophila)"
  }

  function Canonicals(order: seq<GroupKey>): (names: seq<string>)
    ensures |names| == |order|
    ensures forall k :: 0 <= k < |order| ==> names[k] == order[k].canonical
  {
    seq(|order|, k requires 0 <= k < |order| => order[k].canonical)
  }

  function Categories(order: seq<GroupKey>): (types: seq<string>)
    ensures |types| == |order|
    ensures forall k :: 0 <= k < |order| ==> types[k] == order[k].category
  {
    seq(|order|, k requires 0 <= k < |order| => order[k].category)
  }

  /** The description of every native group in `order`. */
  function NativeDescriptions(ranked: seq<Candidate>, order: seq<GroupKey>): (ds: seq<string>)
    ensures |ds| == |order|
  {
    if order == [] then []
    else
      var g := order[|order| - 1];
      NativeDescriptions(ranked, order[..|order| - 1]) + [NativeDescription(g.canonical, Members(ranked, g))]
  }

  /** Each group's description sits at the group's position. */
  lemma {:induction false} NativeDescriptionsAt(ranked: seq<Candidate>, order: seq<GroupKey>, k: nat)
    requires k < |order|
    ensures NativeDescriptions(ranked, order)[k] == NativeDescription(order[k].canonical, Members(ranked, order[k]))
  {
    if k < |order| - 1 {
      NativeDescriptionsAt(ranked, order[..|order| - 1], k);
    }
  }

  /** The reply in the native namespace. */
  function NativeFeatures(ranked: seq<Candidate>): Features {
    var order := Dedup(GroupKeys(ranked));
    Features(Canonicals(order), Categories(order), NativeDescriptions(ranked, order))
  }

  /** The description of the kept row of every cross-species key in `order`. */
  function OrthologueDescriptions(source: string, rows: seq<Row>, order: seq<GroupKey>): (ds: seq<string>)
    requires forall k :: 0 <= k < |order| ==> order[k] in RowKeys(rows)
    ensures |ds| == |order|
    ensures forall k :: 0 <= k < |order| ==> ds[k] == OrthologueDescription(source, FirstRow(rows, order[k]))
  {
    seq(|order|, k requires 0 <= k < |order| => OrthologueDescription(source, FirstRow(rows, order[k])))
  }

  /** The reply in a cross-species namespace. */
  function CrossFeatures(ranked: seq<Candidate>, table: AliasTable, source: string): Result<Features, SearchError> {
    match FanOut(ranked, table)
    case Failure(e) => Failure(e)
    case Success(rows) =>
      var order := Dedup(RowKeys(rows));
      Success(Features(Canonicals(order), Categories(order), OrthologueDescriptions(source, rows, order)))
  }

  /** The specification of `get_features`. */
  function Search(spaceOf: Namespace -> seq<Candidate>, hsap: AliasTable, mmus: AliasTable,
                  query: string, fold: string -> string): Result<Features, SearchError>
  {
    var (ns, q) := ParseQuery(query);
    var queryCF := fold(q);
    var ranked := Rank(Matches(spaceOf(ns), queryCF), q, queryCF);
    match ns
    case Native => Success(NativeFeatures(ranked))
    case Human => CrossFeatures(ranked, hsap, "Human")
    case Mouse => CrossFeatures(ranked, mmus, "Mouse")
  }

  /** The three lists of a reply run in parallel, one entry per collapsed
      key, and no (feature, type) pair occurs twice. */
  ghost predicate Aligned(f: Features) {
    && |f.feature| == |f.featureType| == |f.featureDescription|
    && forall i, j :: 0 <= i < j < |f.feature| ==> (f.feature[i], f.featureType[i]) != (f.feature[j], f.featureType[j])
  }

  lemma KeysAligned(order: seq<GroupKey>, ds: seq<string>)
    requires Distinct(order) && |ds| == |order|
    ensures Aligned(Features(Canonicals(order), Categories(order), ds))
  {
    forall i, j | 0 <= i < j < |order|
      ensures (Canonicals(order)[i], Categories(order)[i]) != (Canonicals(order)[j], Categories(order)[j])
    {
      assert order[i] != order[j];
    }
  }

  lemma NativeAligned(ranked: seq<Candidate>)
    ensures Aligned(NativeFeatures(ranked))
  {
    DedupDistinct(GroupKeys(ranked));
    var order := Dedup(GroupKeys(ranked));
    KeysAligned(order, NativeDescriptions(ranked, order));
  }

  lemma CrossAligned(ranked: seq<Candidate>, table: AliasTable, source: string)
    ensures CrossFeatures(ranked, table, source).Success? ==> Aligned(CrossFeatures(ranked, table, source).value)
  {
    if FanOut(ranked, table).Success? {
      var rows := FanOut(ranked, table).value;
      var order := Dedup(RowKeys(rows));
      DedupDistinct(RowKeys(rows));
      KeysAligned(order, OrthologueDescriptions(source, rows, order));
    }
  }

  /** Every reply `get_features` gives is aligned. */
  lemma SearchAligned(spaceOf: Namespace -> seq<Candidate>, hsap: AliasTable, mmus: AliasTable,
                      query: string, fold: string -> string)
    ensures Search(spaceOf, hsap, mmus, query, fold).Success? ==>
      Aligned(Search(spaceOf, hsap, mmus, query, fold).value)
  {
    var (ns, q) := ParseQuery(query);
    var queryCF := fold(q);
    var ranked := Rank(Matches(spaceOf(ns), queryCF), q, queryCF);
    NativeAligned(ranked);
    CrossAligned(ranked, hsap, "Human");
    CrossAligned(ranked, mmus, "Mouse");
  }

  lemma NativeDescriptionsSnoc(ranked: seq<Candidate>, order: seq<GroupKey>, k: nat)
    requires k < |order|
    ensures NativeDescriptions(ranked, order[..k + 1]) ==
      NativeDescriptions(ranked, order[..k]) + [NativeDescription(order[k].canonical, Members(ranked, order[k]))]
  {
    assert order[..k + 1][..k] == order[..k];
  }

  /** The description loop of the native namespace, over the collapsed groups. */
  method DescribeNative(order: seq<GroupKey>, groups: map<GroupKey, seq<string>>, ghost ranked: seq<Candidate>)
    returns (ds: seq<string>)
    requires forall k :: 0 <= k < |order| ==> order[k] in groups && groups[order[k]] == Members(ranked, order[k])
    ensures ds == NativeDescriptions(ranked, order)
  {
    ds := [];
    for k := 0 to |order|
      invariant ds == NativeDescriptions(ranked, order[..k])
    {
      // synonyms = sorted(...); synonyms.remove(r[0]) with the ValueError ignored
      var synonyms := RemoveFirst(Sort(groups[order[k]]), order[k].canonical);
      var d: string;
      if |synonyms| > 0 {
        d := "Synonym of: " + Join(", ", synonyms);
      } else {
        d := "";
      }
      NativeDescriptionsSnoc(ranked, order, k);
      ds := ds + [d];
    }
    assert order[..|order|] == order;
  }

  /** The native reply: collapse, then describe every group. */
  method NativeReply(ranked: seq<Candidate>) returns (f: Features)
    ensures f == NativeFeatures(ranked)
  {
    var order, groups := CollapseNative(ranked);
    forall k | 0 <= k < |order| ensures order[k] in groups && groups[order[k]] == Members(ranked, order[k]) {
      assert order[k] in order;
    }
    var descriptions := DescribeNative(order, groups, ranked);
    f := Features(Canonicals(order), Categories(order), descriptions);
  }

  /** The description loop of a cross-species namespace, over the kept rows. */
  method DescribeCross(order: seq<GroupKey>, chosen: map<GroupKey, (string, string)>, source: string)
    returns (ds: seq<string>)
    requires forall k :: 0 <= k < |order| ==> order[k] in chosen
    ensures |ds| == |order|
    ensures forall k :: 0 <= k < |order| ==>
      ds[k] == OrthologueDescription(source, Row(order[k], chosen[order[k]].0, chosen[order[k]].1))
  {
    ds := [];
    for k := 0 to |order|
      invariant |ds| == k
      invariant forall i :: 0 <= i < k ==>
        ds[i] == OrthologueDescription(source, Row(order[i], chosen[order[i]].0, chosen[order[i]].1))
    {
      var (display, pct) := chosen[order[k]];
      ds := ds + [OrthologueDescription(source, Row(order[k], display, pct))];
    }
  }

  lemma OrthologueDescriptionsOfCollapse(rows: seq<Row>, order: seq<GroupKey>,
                                         chosen: map<GroupKey, (string, string)>, source: string, ds: seq<string>)
    requires CrossCollapsed(rows, order, chosen)
    requires |ds| == |order|
    requires forall k :: 0 <= k < |order| ==>
      order[k] in chosen && ds[k] == OrthologueDescription(source, Row(order[k], chosen[order[k]].0, chosen[order[k]].1))
    ensures forall k :: 0 <= k < |order| ==> order[k] in RowKeys(rows)
    ensures ds == OrthologueDescriptions(source, rows, order)
  {
    forall k | 0 <= k < |order| ensures ds[k] == OrthologueDescriptions(source, rows, order)[k] {
      assert Row(order[k], chosen[order[k]].0, chosen[order[k]].1) == FirstRow(rows, order[k]);
    }
  }

  /** A cross-species reply: collapse, then describe every kept row. */
  method CrossReply(ranked: seq<Candidate>, table: AliasTable, source: string)
    returns (r: Result<Features, SearchError>)
    ensures r == CrossFeatures(ranked, table, source)
  {
    var collapsed := CollapseCross(ranked, table);
    if collapsed.Failure? {
      return Failure(collapsed.error);
    }
    var (order, chosen) := collapsed.value;
    ghost var rows := FanOut(ranked, table).value;
    assert forall k :: 0 <= k < |order| ==> order[k] in chosen by {
      forall k | 0 <= k < |order| ensures order[k] in chosen {
        assert order[k] in order;
      }
    }
    var descriptions := DescribeCross(order, chosen, source);
    OrthologueDescriptionsOfCollapse(rows, order, chosen, source, descriptions);
    r := Success(Features(Canonicals(order), Categories(order), descriptions));
  }

  /** `get_features` step by step: select the namespace, filter, run the four
      passes, collapse and describe. */
  method GetFeatures(spaceOf: Namespace -> seq<Candidate>, hsap: AliasTable, mmus: AliasTable,
                     query: string, fold: string -> string)
    returns (r: Result<Features, SearchError>)
    ensures r == Search(spaceOf, hsap, mmus, query, fold)
  {
    var (ns, q) := ParseQuery(query);
    var queryCF := fold(q);
    var res := Matches(spaceOf(ns), queryCF);
    var ranked := RankMatches(res, q, queryCF);
    match ns {
      case Native =>
        var f := NativeReply(ranked);
        r := Success(f);
      case Human =>
        r := CrossReply(ranked, hsap, "Human");
      case Mouse =>
        r := CrossReply(ranked, mmus, "Mouse");
    }
  }
}
