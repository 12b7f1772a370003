/** The ledger both services work on: the category table, the transaction
    table and the id generator of the store, held in memory. The store's
    `create` builds an entity without an id and `save` persists it, handing
    out a fresh id; the methods of `Store` model that pair. */
module Ledger {

  datatype Option<+T> = None | Some(value: T)

  datatype Result<+R, +E> = Success(value: R) | Failure(error: E)

  /** The `type` column of a transaction. */
  datatype TxType = Income | Outcome

  /** A saved category row. */
  datatype Category = Category(id: nat, title: string)

  /** A transaction built by the repository's `create`, not yet saved. */
  datatype Draft = Draft(title: string, value: int, kind: TxType, categoryId: nat)

  /** A saved transaction row. */
  datatype Transaction = Transaction(id: nat, title: string, value: int, kind: TxType, categoryId: nat)

  /** The titles of a list of categories, in order (`categories.map(c => c.title)`). */
  function Titles(cats: seq<Category>): seq<string>
  {
    seq(|cats|, i requires 0 <= i < |cats| => cats[i].title)
  }

  /** The ids of a list of categories. */
  function IdSet(cats: seq<Category>): set<nat>
  {
    set c | c in cats :: c.id
  }

  /** No two categories share a title. */
  ghost predicate UniqueTitles(cats: seq<Category>)
  {
    forall i, j :: 0 <= i < j < |cats| ==> cats[i].title != cats[j].title
  }

  /** No element occurs twice. */
  ghost predicate Distinct<T>(s: seq<T>)
  {
    forall i, j :: 0 <= i < j < |s| ==> s[i] != s[j]
  }

  /** How many categories carry the title `t`. */
  function CountTitle(cats: seq<Category>, t: string): nat
  {
    if cats == [] then 0
    else (if cats[0].title == t then 1 else 0) + CountTitle(cats[1..], t)
  }

  /** The first category whose title is exactly `t`, if any. */
  function FindByTitle(cats: seq<Category>, t: string): (r: Option<Category>)
    ensures r.None? <==> t !in Titles(cats)
    ensures r.Some? ==> r.value in cats && r.value.title == t
    ensures r.Some? ==> exists i :: 0 <= i < |cats| && cats[i] == r.value && t !in Titles(cats[..i])
  {
    if cats == [] then None
    else if cats[0].title == t then
      assert Titles(cats)[0] == t;
      assert Titles(cats[..0]) == [];
      Some(cats[0])
    else
      var r := FindByTitle(cats[1..], t);
      assert Titles(cats) == [cats[0].title] + Titles(cats[1..]);
      if r.Some? then
        ghost var i :| 0 <= i < |cats[1..]| && cats[1..][i] == r.value && t !in Titles(cats[1..][..i]);
        assert Titles(cats[..i + 1]) == [cats[0].title] + Titles(cats[1..][..i]);
        r
      else
        r
  }

  /** Looking up the title of a category appended after all others without
      that title finds the appended one. */
  lemma {:induction false} FindByTitleAppendNew(cats: seq<Category>, c: Category)
    requires c.title !in Titles(cats)
    ensures FindByTitle(cats + [c], c.title) == Some(c)
  {
    if cats != [] {
      assert Titles(cats) == [cats[0].title] + Titles(cats[1..]);
      assert (cats + [c])[1..] == cats[1..] + [c];
      FindByTitleAppendNew(cats[1..], c);
    }
  }

  /** `t` is a title of `cats` exactly when some category of `cats` has it. */
  lemma InTitles(cats: seq<Category>, t: string)
    ensures t in Titles(cats) <==> exists c :: c in cats && c.title == t
  {
    if exists c :: c in cats && c.title == t {
      var c :| c in cats && c.title == t;
      var i :| 0 <= i < |cats| && cats[i] == c;
      assert Titles(cats)[i] == t;
    }
  }

  lemma TitlesAppend(a: seq<Category>, b: seq<Category>)
    ensures Titles(a + b) == Titles(a) + Titles(b)
  {
  }

  /** Under unique titles a title occurs at most once. */
  lemma {:induction false} UniqueCountAtMostOne(cats: seq<Category>, t: string)
    requires UniqueTitles(cats)
    ensures CountTitle(cats, t) <= 1
    ensures CountTitle(cats, t) == 1 <==> t in Titles(cats)
  {
    if cats != [] {
      assert UniqueTitles(cats[1..]);
      UniqueCountAtMostOne(cats[1..], t);
      assert Titles(cats) == [cats[0].title] + Titles(cats[1..]);
      if cats[0].title == t {
        assert forall k :: 0 <= k < |cats| - 1 ==> Titles(cats[1..])[k] == cats[k + 1].title != t;
      }
    }
  }

  /** A title is counted once more when a category with it is appended. */
  lemma {:induction false} CountTitleAppend(cats: seq<Category>, c: Category, t: string)
    ensures CountTitle(cats + [c], t) == CountTitle(cats, t) + (if c.title == t then 1 else 0)
  {
    if cats != [] {
      assert (cats + [c])[1..] == cats[1..] + [c];
      CountTitleAppend(cats[1..], c, t);
    }
  }

  /** Categories saved in one bulk `save`: consecutive fresh ids from `first`. */
  function NumberedCategories(titles: seq<string>, first: nat): (r: seq<Category>)
    ensures |r| == |titles| && Titles(r) == titles
    ensures forall i :: 0 <= i < |r| ==> r[i].id == first + i
  {
    seq(|titles|, i requires 0 <= i < |titles| => Category(first + i, titles[i]))
  }

  /** Transactions saved in one bulk `save`: consecutive fresh ids from `first`. */
  function NumberedTransactions(drafts: seq<Draft>, first: nat): (r: seq<Transaction>)
    ensures |r| == |drafts|
    ensures forall i :: 0 <= i < |r| ==>
              r[i] == Transaction(first + i, drafts[i].title, drafts[i].value, drafts[i].kind, drafts[i].categoryId)
  {
    seq(|drafts|, i requires 0 <= i < |drafts| =>
      Transaction(first + i, drafts[i].title, drafts[i].value, drafts[i].kind, drafts[i].categoryId))
  }

  /** The two repositories and the id generator behind them. */
  class Store {
    var categories: seq<Category>
    var transactions: seq<Transaction>
    var nextId: nat

    /** Ids are fresh and distinct, and every transaction's category exists. */
    ghost predicate Valid()
      reads this
    {
      && (forall i :: 0 <= i < |categories| ==> categories[i].id < nextId)
      && (forall i, j :: 0 <= i < j < |categories| ==> categories[i].id != categories[j].id)
      && (forall i :: 0 <= i < |transactions| ==> transactions[i].id < nextId)
      && (forall i, j :: 0 <= i < j < |transactions| ==> transactions[i].id != transactions[j].id)
      && (forall i :: 0 <= i < |transactions| ==> transactions[i].categoryId in IdSet(categories))
    }

    /** An empty ledger. */
    constructor ()
      ensures Valid()
      ensures categories == [] && transactions == [] && nextId == 0
    {
      categories, transactions, nextId := [], [], 0;
    }

    /** `create({ title })` followed by `save` of one category. */
    method AddCategory(title: string) returns (c: Category)
      requires Valid()
      modifies this
      ensures Valid()
      ensures c == Category(old(nextId), title)
      ensures categories == old(categories) + [c]
      ensures transactions == old(transactions) && nextId == old(nextId) + 1
    {
      c := Category(nextId, title);
      AddCategoriesKeepsIds(categories, [c]);
      categories := categories + [c];
      nextId := nextId + 1;
    }

    /** `create(list)` followed by `save(list)` of many categories. */
    method AddCategories(titles: seq<string>) returns (added: seq<Category>)
      requires Valid()
      modifies this
      ensures Valid()
      ensures added == NumberedCategories(titles, old(nextId))
      ensures categories == old(categories) + added
      ensures transactions == old(transactions) && nextId == old(nextId) + |titles|
    {
      added := NumberedCategories(titles, nextId);
      AddCategoriesKeepsIds(categories, added);
      categories := categories + added;
      nextId := nextId + |titles|;
    }

    /** `create(fields)` followed by `save` of one transaction. */
    method AddTransaction(d: Draft) returns (t: Transaction)
      requires Valid()
      requires d.categoryId in IdSet(categories)
      modifies this
      ensures Valid()
      ensures t == Transaction(old(nextId), d.title, d.value, d.kind, d.categoryId)
      ensures transactions == old(transactions) + [t]
      ensures categories == old(categories) && nextId == old(nextId) + 1
    {
      t := Transaction(nextId, d.title, d.value, d.kind, d.categoryId);
      transactions := transactions + [t];
      nextId := nextId + 1;
    }

    /** `create(list)` followed by `save(list)` of many transactions. */
    method AddTransactions(drafts: seq<Draft>) returns (saved: seq<Transaction>)
      requires Valid()
      requires forall k :: 0 <= k < |drafts| ==> drafts[k].categoryId in IdSet(categories)
      modifies this
      ensures Valid()
      ensures saved == NumberedTransactions(drafts, old(nextId))
      ensures transactions == old(transactions) + saved
      ensures categories == old(categories) && nextId == old(nextId) + |drafts|
    {
      saved := NumberedTransactions(drafts, nextId);
      transactions := transactions + saved;
      nextId := nextId + |drafts|;
    }
  }

  /** Appending categories never loses an id. */
  lemma AddCategoriesKeepsIds(cats: seq<Category>, added: seq<Category>)
    ensures IdSet(cats) <= IdSet(cats + added)
  {
  }
}
