/** Creating one transaction: an outcome is refused when it exceeds the
    balance total; the category is found by its exact title or created; one
    transaction is saved and returned. The balance total is an input, as the
    repository that computes it is not part of this model. */
module CreateTransactionService {
  import opened Ledger

  /** The one error the service raises; it carries the balance total. */
  datatype AppError = InsufficientBalance(total: int)

  /** The category list, chosen category id and id counter after find-or-create. */
  datatype Resolution = Resolution(categories: seq<Category>, categoryId: nat, nextId: nat)

  /** Find the category titled `name`, or append a new one with the fresh id `nextId`. */
  function FindOrCreate(cats: seq<Category>, nextId: nat, name: string): (r: Resolution)
    ensures Category(r.categoryId, name) in r.categories
    ensures name in Titles(cats) ==> r.categories == cats && r.nextId == nextId
    ensures name !in Titles(cats) ==>
              r.categories == cats + [Category(nextId, name)] && r.categoryId == nextId && r.nextId == nextId + 1
  {
    match FindByTitle(cats, name)
    case Some(c) => Resolution(cats, c.id, nextId)
    case None => Resolution(cats + [Category(nextId, name)], nextId, nextId + 1)
  }

  /** Find-or-create never leaves more than one extra category titled `name`,
      and leaves exactly one when there was none. */
  lemma FindOrCreateCount(cats: seq<Category>, nextId: nat, name: string)
    ensures var r := FindOrCreate(cats, nextId, name);
            CountTitle(r.categories, name) == if name in Titles(cats) then CountTitle(cats, name) else 1
  {
    if name !in Titles(cats) {
      CountTitleAppend(cats, Category(nextId, name), name);
      CountAbsent(cats, name);
    }
  }

  lemma {:induction false} CountAbsent(cats: seq<Category>, t: string)
    requires t !in Titles(cats)
    ensures CountTitle(cats, t) == 0
  {
    if cats != [] {
      assert Titles(cats) == [cats[0].title] + Titles(cats[1..]);
      CountAbsent(cats[1..], t);
    }
  }

  /** A second find-or-create with the same title finds what the first one
      found or created, and adds nothing. */
  lemma FindOrCreateIdempotent(cats: seq<Category>, nextId: nat, name: string, nextId2: nat)
    ensures var r := FindOrCreate(cats, nextId, name);
            FindOrCreate(r.categories, nextId2, name) == Resolution(r.categories, r.categoryId, nextId2)
  {
    if name !in Titles(cats) {
      FindByTitleAppendNew(cats, Category(nextId, name));
    }
  }

  /** Find-or-create keeps category titles unique, and leaves exactly one
      category titled `name`, whether it was found or created. */
  lemma FindOrCreateKeepsUnique(cats: seq<Category>, nextId: nat, name: string)
    requires UniqueTitles(cats)
    ensures UniqueTitles(FindOrCreate(cats, nextId, name).categories)
    ensures CountTitle(FindOrCreate(cats, nextId, name).categories, name) == 1
  {
    if name in Titles(cats) {
      UniqueCountAtMostOne(cats, name);
    } else {
      CountTitleAppend(cats, Category(nextId, name), name);
      CountAbsent(cats, name);
      var r := FindOrCreate(cats, nextId, name).categories;
      forall i, j | 0 <= i < j < |r| ensures r[i].title != r[j].title {
        if j == |cats| {
          assert Titles(cats)[i] == cats[i].title;
        }
      }
    }
  }

  /** Two creates with the same category name, starting from at most one
      category with that title, leave exactly one. */
  lemma TwoCreatesLeaveOne(cats: seq<Category>, nextId: nat, nextId2: nat, name: string)
    requires CountTitle(cats, name) <= 1
    ensures var r1 := FindOrCreate(cats, nextId, name);
            var r2 := FindOrCreate(r1.categories, nextId2, name);
            CountTitle(r2.categories, name) == 1
  {
    var r1 := FindOrCreate(cats, nextId, name);
    FindOrCreateIdempotent(cats, nextId, name, nextId2);
    FindOrCreateCount(cats, nextId, name);
    if name in Titles(cats) {
      InTitles(cats, name);
      CountPresent(cats, name);
    }
  }

  lemma {:induction false} CountPresent(cats: seq<Category>, t: string)
    requires t in Titles(cats)
    ensures CountTitle(cats, t) >= 1
  {
    assert Titles(cats) == [cats[0].title] + Titles(cats[1..]);
    if cats[0].title != t {
      CountPresent(cats[1..], t);
    }
  }

  /** The service: guard, find-or-create, save one transaction. */
  method Execute(store: Store, title: string, value: int, kind: TxType, categoryName: string, total: int)
    returns (r: Result<Transaction, AppError>)
    requires store.Valid()
    modifies store
    ensures store.Valid()
    ensures r.Failure? <==> kind == Outcome && value > total
    ensures r.Failure? ==>
              r.error == InsufficientBalance(total)
              && store.categories == old(store.categories)
              && store.transactions == old(store.transactions)
              && store.nextId == old(store.nextId)
    ensures r.Success? ==>
              var res := FindOrCreate(old(store.categories), old(store.nextId), categoryName);
              && store.categories == res.categories
              && r.value == Transaction(res.nextId, title, value, kind, res.categoryId)
              && store.transactions == old(store.transactions) + [r.value]
              && store.nextId == res.nextId + 1
  {
    if kind == Outcome {
      if value > total {
        return Failure(InsufficientBalance(total));
      }
    }

    var categoryId: nat;
    var existing := FindByTitle(store.categories, categoryName);
    if existing.None? {
      var created := store.AddCategory(categoryName);
      categoryId := created.id;
    } else {
      categoryId := existing.value.id;
    }

    assert Category(categoryId, categoryName) in store.categories;
    var t := store.AddTransaction(Draft(title, value, kind, categoryId));
    return Success(t);
  }
}
