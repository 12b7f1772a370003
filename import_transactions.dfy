/** Importing a batch of transactions from rows already decoded from a CSV
    file: incomplete rows are skipped, the category titles that do not exist
    yet are created once each, every kept row is saved as a transaction
    pointing at the category with its title. No balance check is made. */
module ImportTransactionsService {
  import opened Ledger

  /** One decoded CSV record. An empty or missing cell is `None`. */
  datatype Row = Row(title: Option<string>, kind: Option<TxType>, value: Option<int>, category: string)

  /** A kept record, as the service buffers it before saving. */
  datatype FileTransaction = FileTransaction(title: string, value: int, kind: TxType, category: string)

  /** A row is kept when its title, type and value are all truthy in
      JavaScript's sense: a missing cell, an empty title and a zero value are not. */
  predicate IsComplete(row: Row)
  {
    && row.title.Some? && row.title.value != ""
    && row.kind.Some?
    && row.value.Some? && row.value.value != 0
  }

  function Buffered(row: Row): FileTransaction
    requires IsComplete(row)
  {
    FileTransaction(row.title.value, row.value.value, row.kind.value, row.category)
  }

  /** The rows the `data` handler buffers, in file order. */
  function KeptRows(rows: seq<Row>): seq<FileTransaction>
  {
    if rows == [] then []
    else
      var last := rows[|rows| - 1];
      KeptRows(rows[..|rows| - 1]) + (if IsComplete(last) then [Buffered(last)] else [])
  }

  /** The positions in the file of the rows that are kept. */
  function KeptPositions(rows: seq<Row>): seq<nat>
  {
    if rows == [] then []
    else KeptPositions(rows[..|rows| - 1]) + (if IsComplete(rows[|rows| - 1]) then [|rows| - 1] else [])
  }

  /** Each kept position holds a complete row, positions increase, and the
      kept rows are the rows at those positions. */
  lemma {:induction false} KeptPositionsSound(rows: seq<Row>)
    ensures |KeptRows(rows)| == |KeptPositions(rows)|
    ensures forall k :: 0 <= k < |KeptPositions(rows)| ==>
              && KeptPositions(rows)[k] < |rows|
              && IsComplete(rows[KeptPositions(rows)[k]])
              && KeptRows(rows)[k] == Buffered(rows[KeptPositions(rows)[k]])
    ensures forall k, l :: 0 <= k < l < |KeptPositions(rows)| ==> KeptPositions(rows)[k] < KeptPositions(rows)[l]
  {
    if rows != [] {
      var n := |rows| - 1;
      var front := rows[..n];
      KeptPositionsSound(front);
      var pos0 := KeptPositions(front);
      assert forall k :: 0 <= k < |pos0| ==> rows[pos0[k]] == front[pos0[k]];
    }
  }

  /** Every complete row is at a kept position. */
  lemma {:induction false} KeptPositionsComplete(rows: seq<Row>)
    ensures forall i :: 0 <= i < |rows| && IsComplete(rows[i]) ==> i in KeptPositions(rows)
  {
    if rows != [] {
      var n := |rows| - 1;
      var front := rows[..n];
      KeptPositionsComplete(front);
      forall i | 0 <= i < |rows| && IsComplete(rows[i]) ensures i in KeptPositions(rows) {
        if i < n {
          assert front[i] == rows[i];
        }
      }
    }
  }

  /** A row with an empty title or a zero value is never kept. */
  lemma FalsyCellsDropRow(rows: seq<Row>, i: nat)
    requires i < |rows|
    requires rows[i].title == Some("") || rows[i].value == Some(0)
    ensures i !in KeptPositions(rows)
  {
    KeptPositionsSound(rows);
  }

  /** The `data` handler run over the whole file: buffer each complete row and
      push its category string onto the candidate list. */
  method CollectRows(rows: seq<Row>) returns (transactions: seq<FileTransaction>, categories: seq<string>)
    ensures transactions == KeptRows(rows)
    ensures |categories| == |transactions|
    ensures forall k :: 0 <= k < |categories| ==> categories[k] == transactions[k].category
  {
    transactions, categories := [], [];
    for i := 0 to |rows|
      invariant transactions == KeptRows(rows[..i])
      invariant |categories| == |transactions|
      invariant forall k :: 0 <= k < |categories| ==> categories[k] == transactions[k].category
    {
      assert rows[..i + 1][..i] == rows[..i];
      var row := rows[i];
      if !IsComplete(row) {
        continue;
      }
      transactions := transactions + [Buffered(row)];
      categories := categories + [row.category];
    }
    assert rows[..|rows|] == rows;
  }

  /** The category strings of the kept rows, one per row. */
  function CategoriesOf(kept: seq<FileTransaction>): seq<string>
  {
    seq(|kept|, k requires 0 <= k < |kept| => kept[k].category)
  }

  /** The stored categories whose title is among the candidates (`find` with `In`). */
  function ExistingCategories(cats: seq<Category>, candidates: seq<string>): (r: seq<Category>)
    ensures forall c :: c in r <==> c in cats && c.title in candidates
  {
    if cats == [] then []
    else (if cats[0].title in candidates then [cats[0]] else []) + ExistingCategories(cats[1..], candidates)
  }

  /** `s.filter(x => !excluded.includes(x))`. */
  function NotAmong(s: seq<string>, excluded: seq<string>): (r: seq<string>)
    ensures forall x :: x in r <==> x in s && x !in excluded
  {
    if s == [] then []
    else (if s[0] in excluded then [] else [s[0]]) + NotAmong(s[1..], excluded)
  }

  /** `s.indexOf(x)`: the first position of `x`, or -1 when absent. */
  function IndexOf(s: seq<string>, x: string): (r: int)
    ensures -1 <= r < |s|
    ensures r == -1 <==> x !in s
    ensures 0 <= r ==> s[r] == x
    ensures forall j :: 0 <= j < |s| && s[j] == x ==> 0 <= r <= j
  {
    if s == [] then -1
    else if s[0] == x then 0
    else
      var i := IndexOf(s[1..], x);
      if i == -1 then -1 else i + 1
  }

  /** `s.filter((x, i, self) => self.indexOf(x) === i)` over the first `n` entries. */
  function FirstOccurrences(s: seq<string>, n: nat): seq<string>
    requires n <= |s|
  {
    if n == 0 then []
    else FirstOccurrences(s, n - 1) + (if IndexOf(s, s[n - 1]) == n - 1 then [s[n - 1]] else [])
  }

  /** A value is kept exactly when it is first seen within the first `n` entries. */
  lemma {:induction false} FirstOccurrencesMembers(s: seq<string>, n: nat)
    requires n <= |s|
    ensures forall x :: x in FirstOccurrences(s, n) <==> 0 <= IndexOf(s, x) < n
  {
    if n > 0 {
      FirstOccurrencesMembers(s, n - 1);
      var last := s[n - 1];
      forall x ensures x in FirstOccurrences(s, n) <==> 0 <= IndexOf(s, x) < n {
        if x == last {
          assert IndexOf(s, x) <= n - 1;
        }
      }
    }
  }

  /** Kept values come in the order in which they are first seen. */
  lemma {:induction false} FirstOccurrencesOrdered(s: seq<string>, n: nat)
    requires n <= |s|
    ensures forall k :: 0 <= k < |FirstOccurrences(s, n)| ==> 0 <= IndexOf(s, FirstOccurrences(s, n)[k]) < n
    ensures forall k, l :: 0 <= k < l < |FirstOccurrences(s, n)| ==>
              IndexOf(s, FirstOccurrences(s, n)[k]) < IndexOf(s, FirstOccurrences(s, n)[l])
  {
    if n > 0 {
      FirstOccurrencesOrdered(s, n - 1);
      var prefix := FirstOccurrences(s, n - 1);
      var r := FirstOccurrences(s, n);
      assert r[..|prefix|] == prefix;
      if |r| > |prefix| {
        assert IndexOf(s, r[|prefix|]) == n - 1;
      }
    }
  }

  /** The `categoriesToAdd` chain: candidates without an existing title, each once. */
  function CategoriesToAdd(candidates: seq<string>, existingTitles: seq<string>): seq<string>
  {
    var unseen := NotAmong(candidates, existingTitles);
    FirstOccurrences(unseen, |unseen|)
  }

  /** Dropping excluded entries does not change the order in which the
      remaining values are first seen. */
  lemma {:induction false} NotAmongKeepsFirstSeenOrder(s: seq<string>, excluded: seq<string>, x: string, y: string)
    requires x in NotAmong(s, excluded) && y in NotAmong(s, excluded)
    requires IndexOf(NotAmong(s, excluded), x) < IndexOf(NotAmong(s, excluded), y)
    ensures IndexOf(s, x) < IndexOf(s, y)
  {
    var f := NotAmong(s, excluded);
    var f' := NotAmong(s[1..], excluded);
    assert x in s && x !in excluded && y in s && y !in excluded;
    if s[0] in excluded {
      assert f == f';
      assert s[0] != x && s[0] != y;
      assert x in s[1..] && y in s[1..];
      NotAmongKeepsFirstSeenOrder(s[1..], excluded, x, y);
      assert IndexOf(s, x) == IndexOf(s[1..], x) + 1;
      assert IndexOf(s, y) == IndexOf(s[1..], y) + 1;
    } else if x == s[0] {
      assert IndexOf(s, x) == 0;
      assert y != x;
    } else if y != s[0] {
      assert f == [s[0]] + f';
      assert x in f' && y in f';
      assert IndexOf(f, x) == IndexOf(f', x) + 1;
      assert IndexOf(f, y) == IndexOf(f', y) + 1;
      NotAmongKeepsFirstSeenOrder(s[1..], excluded, x, y);
      assert IndexOf(s, x) == IndexOf(s[1..], x) + 1;
      assert IndexOf(s, y) == IndexOf(s[1..], y) + 1;
    }
  }

  /** A sequence without repetitions has as many distinct values as entries. */
  lemma {:induction false} DistinctCardinality(s: seq<string>)
    requires Distinct(s)
    ensures |set x | x in s| == |s|
  {
    if s != [] {
      var n := |s| - 1;
      assert Distinct(s[..n]);
      DistinctCardinality(s[..n]);
      assert (set x | x in s) == (set x | x in s[..n]) + {s[n]};
      assert s[n] !in s[..n];
    }
  }

  /** What the `categoriesToAdd` chain guarantees. */
  lemma CategoriesToAddSpec(candidates: seq<string>, existingTitles: seq<string>)
    ensures var r := CategoriesToAdd(candidates, existingTitles);
            && (forall x :: x in r <==> x in candidates && x !in existingTitles)
            && Distinct(r)
            && (forall k, l :: 0 <= k < l < |r| ==> IndexOf(candidates, r[k]) < IndexOf(candidates, r[l]))
            && |r| == |set x | x in candidates && x !in existingTitles|
  {
    var f := NotAmong(candidates, existingTitles);
    var r := CategoriesToAdd(candidates, existingTitles);
    FirstOccurrencesMembers(f, |f|);
    FirstOccurrencesOrdered(f, |f|);
    assert forall x :: x in r <==> x in f by {
      forall x ensures x in r <==> x in f {
        assert 0 <= IndexOf(f, x) < |f| <==> x in f;
      }
    }
    forall k, l | 0 <= k < l < |r| ensures IndexOf(candidates, r[k]) < IndexOf(candidates, r[l]) {
      NotAmongKeepsFirstSeenOrder(candidates, existingTitles, r[k], r[l]);
    }
    assert Distinct(r);
    DistinctCardinality(r);
    assert (set x | x in r) == (set x | x in candidates && x !in existingTitles);
  }

  /** The rows resolve: every row's category string is among the titles. */
  ghost predicate Resolvable(kept: seq<FileTransaction>, all: seq<Category>)
  {
    forall k :: 0 <= k < |kept| ==> kept[k].category in Titles(all)
  }

  /** `transactionsRepository.create(...)`: each kept row with the category
      that `allCategories.find` gives for its category string. */
  function Drafts(kept: seq<FileTransaction>, all: seq<Category>): (r: seq<Draft>)
    requires Resolvable(kept, all)
    ensures |r| == |kept|
    ensures forall k :: 0 <= k < |r| ==>
              && r[k].title == kept[k].title && r[k].value == kept[k].value && r[k].kind == kept[k].kind
              && Category(r[k].categoryId, kept[k].category) in all
  {
    seq(|kept|, k requires 0 <= k < |kept| =>
      var c := FindByTitle(all, kept[k].category).value;
      Draft(kept[k].title, kept[k].value, kept[k].kind, c.id))
  }

  /** Among the candidates, a title is found by the `In` lookup exactly when
      some stored category has it. */
  lemma ExistingTitlesAreStoredTitles(cats: seq<Category>, candidates: seq<string>)
    ensures forall x :: x in candidates ==>
              (x in Titles(ExistingCategories(cats, candidates)) <==> x in Titles(cats))
  {
    forall x | x in candidates
      ensures x in Titles(ExistingCategories(cats, candidates)) <==> x in Titles(cats)
    {
      InTitles(ExistingCategories(cats, candidates), x);
      InTitles(cats, x);
    }
  }

  /** The titles an import adds are the candidate titles not stored yet, once each. */
  lemma AddedTitles(cats: seq<Category>, candidates: seq<string>)
    ensures var toAdd := CategoriesToAdd(candidates, Titles(ExistingCategories(cats, candidates)));
            && (forall x :: x in toAdd <==> x in candidates && x !in Titles(cats))
            && Distinct(toAdd)
            && |toAdd| == |set x | x in candidates && x !in Titles(cats)|
  {
    var existingTitles := Titles(ExistingCategories(cats, candidates));
    CategoriesToAddSpec(candidates, existingTitles);
    ExistingTitlesAreStoredTitles(cats, candidates);
    assert (set x | x in candidates && x !in existingTitles) == (set x | x in candidates && x !in Titles(cats));
  }

  /** Appending categories whose titles are new and distinct keeps titles unique. */
  lemma AppendNewTitlesKeepsUnique(cats: seq<Category>, toAdd: seq<string>, first: nat)
    requires UniqueTitles(cats)
    requires Distinct(toAdd)
    requires forall x :: x in toAdd ==> x !in Titles(cats)
    ensures UniqueTitles(cats + NumberedCategories(toAdd, first))
  {
    var added := NumberedCategories(toAdd, first);
    var all := cats + added;
    forall i, j | 0 <= i < j < |all| ensures all[i].title != all[j].title {
      if j >= |cats| {
        assert all[j].title == toAdd[j - |cats|] && toAdd[j - |cats|] in toAdd;
        if i < |cats| {
          assert Titles(cats)[i] == all[i].title;
        } else {
          assert all[i].title == toAdd[i - |cats|];
        }
      }
    }
  }

  /** Every kept row's category string is a title of the new categories
      followed by the existing ones, so `find` never comes back empty. */
  lemma AllCategoriesResolve(cats: seq<Category>, kept: seq<FileTransaction>, first: nat)
    ensures var candidates := CategoriesOf(kept);
            var existing := ExistingCategories(cats, candidates);
            var added := NumberedCategories(CategoriesToAdd(candidates, Titles(existing)), first);
            Resolvable(kept, added + existing)
  {
    var candidates := CategoriesOf(kept);
    var existing := ExistingCategories(cats, candidates);
    var added := NumberedCategories(CategoriesToAdd(candidates, Titles(existing)), first);
    CategoriesToAddSpec(candidates, Titles(existing));
    TitlesAppend(added, existing);
    forall k | 0 <= k < |kept| ensures kept[k].category in Titles(added + existing) {
      assert candidates[k] == kept[k].category;
    }
  }

  /** The category steps of one import, on values: the categories appended
      to `cats` are new, distinct and as many as the distinct new titles, and
      the new categories followed by the existing ones resolve every kept row. */
  lemma ImportCategories(cats: seq<Category>, kept: seq<FileTransaction>, first: nat)
    ensures var candidates := CategoriesOf(kept);
            var existing := ExistingCategories(cats, candidates);
            var added := NumberedCategories(CategoriesToAdd(candidates, Titles(existing)), first);
            var after := cats + added;
            && Resolvable(kept, added + existing)
            && (forall c :: c in added + existing ==> c in after)
            && (forall i :: |cats| <= i < |after| ==>
                  after[i].title in candidates && after[i].title !in Titles(cats))
            && |after| - |cats| == |set x | x in candidates && x !in Titles(cats)|
            && (UniqueTitles(cats) ==> UniqueTitles(after))
  {
    var candidates := CategoriesOf(kept);
    var existing := ExistingCategories(cats, candidates);
    var toAdd := CategoriesToAdd(candidates, Titles(existing));
    var added := NumberedCategories(toAdd, first);
    var after := cats + added;
    assert Resolvable(kept, added + existing) by {
      AllCategoriesResolve(cats, kept, first);
    }
    assert forall x :: x in toAdd ==> x in candidates && x !in Titles(cats) by {
      AddedTitles(cats, candidates);
    }
    assert |toAdd| == |set x | x in candidates && x !in Titles(cats)| by {
      AddedTitles(cats, candidates);
    }
    assert UniqueTitles(cats) ==> UniqueTitles(after) by {
      if UniqueTitles(cats) {
        AddedTitles(cats, candidates);
        AppendNewTitlesKeepsUnique(cats, toAdd, first);
      }
    }
    forall i | |cats| <= i < |after|
      ensures after[i].title in candidates && after[i].title !in Titles(cats)
    {
      assert after[i].title == toAdd[i - |cats|] && toAdd[i - |cats|] in toAdd;
    }
  }

  /** The category step of the service: look up the stored categories whose
      title is a candidate, save the missing titles in first-seen order, and
      return the new categories followed by the existing ones. */
  method SaveMissingCategories(store: Store, kept: seq<FileTransaction>) returns (all: seq<Category>)
    requires store.Valid()
    modifies store
    ensures store.Valid()
    ensures store.transactions == old(store.transactions)
    ensures var existing := ExistingCategories(old(store.categories), CategoriesOf(kept));
            var added := NumberedCategories(CategoriesToAdd(CategoriesOf(kept), Titles(existing)), old(store.nextId));
            && store.categories == old(store.categories) + added
            && all == added + existing
            && store.nextId == old(store.nextId) + |added|
    ensures Resolvable(kept, all)
    ensures forall c :: c in all ==> c in store.categories
    ensures |store.categories| >= |old(store.categories)|
    ensures store.categories[..|old(store.categories)|] == old(store.categories)
    ensures forall i :: |old(store.categories)| <= i < |store.categories| ==>
              store.categories[i].title in CategoriesOf(kept)
              && store.categories[i].title !in Titles(old(store.categories))
    ensures |store.categories| - |old(store.categories)|
            == |set x | x in CategoriesOf(kept) && x !in Titles(old(store.categories))|
    ensures old(UniqueTitles(store.categories)) ==> UniqueTitles(store.categories)
  {
    var categories := CategoriesOf(kept);
    var existing := ExistingCategories(store.categories, categories);
    var toAdd := CategoriesToAdd(categories, Titles(existing));
    ImportCategories(store.categories, kept, store.nextId);
    ghost var cats0 := store.categories;
    var added := store.AddCategories(toAdd);
    all := added + existing;
    assert store.categories[..|cats0|] == cats0;
  }

  /** The service, from the decoded rows to the saved transactions. */
  method Execute(store: Store, rows: seq<Row>) returns (created: seq<Transaction>)
    requires store.Valid()
    modifies store
    ensures store.Valid()
    ensures |created| == |KeptRows(rows)|
    ensures store.transactions == old(store.transactions) + created
    ensures forall k :: 0 <= k < |created| ==>
              var row := KeptRows(rows)[k];
              && created[k].title == row.title && created[k].value == row.value && created[k].kind == row.kind
              && Category(created[k].categoryId, row.category) in store.categories
              && old(store.nextId) <= created[k].id
    ensures var cs := CategoriesOf(KeptRows(rows));
            var added := NumberedCategories(CategoriesToAdd(cs, Titles(ExistingCategories(old(store.categories), cs))), old(store.nextId));
            && store.categories == old(store.categories) + added
            && store.nextId == old(store.nextId) + |added| + |created|
            && forall k :: 0 <= k < |created| ==> created[k].id == old(store.nextId) + |added| + k
    ensures |store.categories| >= |old(store.categories)|
    ensures store.categories[..|old(store.categories)|] == old(store.categories)
    ensures forall i :: |old(store.categories)| <= i < |store.categories| ==>
              store.categories[i].title in CategoriesOf(KeptRows(rows))
              && store.categories[i].title !in Titles(old(store.categories))
    ensures |store.categories| - |old(store.categories)|
            == |set x | x in CategoriesOf(KeptRows(rows)) && x !in Titles(old(store.categories))|
    ensures old(UniqueTitles(store.categories)) ==> UniqueTitles(store.categories)
  {
    var kept, categories := CollectRows(rows);
    assert categories == CategoriesOf(kept);
    var all := SaveMissingCategories(store, kept);

    var drafts := Drafts(kept, all);
    forall k | 0 <= k < |drafts| ensures drafts[k].categoryId in IdSet(store.categories) {
      assert Category(drafts[k].categoryId, kept[k].category) in store.categories;
    }
    ghost var next1 := store.nextId;
    created := store.AddTransactions(drafts);
    forall k | 0 <= k < |created|
      ensures && created[k].title == kept[k].title && created[k].value == kept[k].value
              && created[k].kind == kept[k].kind
              && Category(created[k].categoryId, kept[k].category) in store.categories
              && next1 <= created[k].id
    {
      assert created[k] == Transaction(next1 + k, drafts[k].title, drafts[k].value, drafts[k].kind, drafts[k].categoryId);
    }
  }
}
