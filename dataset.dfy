/** The devotional dataset both backends serve: categories that own ordered
    items, the candidate pool a random pick draws from, the per-category
    summaries, and the lookup of a category by id. The two servers implement
    these with their own loops and lookups; this module states what those
    compute. */
module Dataset {
  import opened Common

  /** The status both servers give a successful API reply. */
  const StatusOK := 200

  /** The Arabic messages both servers send when the pool is empty, the
      category id is missing, and the id names no category. */
  const NoResultsText := "لا توجد نتائج للتصنيف المطلوب"
  const MissingIdText := "يرجى تحديد التصنيف"
  const UnknownIdText := "التصنيف غير موجود"

  /** One devotional text. `kind` is the JSON `type` ("quran" or "dhikr");
      `fullAyah` is absent for most items. */
  datatype Item = Item(kind: string, text: string, source: string, fullAyah: Option<string>)

  /** `name` holds the category's display label (`Label` in Go, `label` in JSON). */
  datatype Category = Category(id: string, name: string, icon: string, items: seq<Item>)

  /** A pooled item tagged with the label of the category it came from. */
  datatype Entry = Entry(item: Item, categoryLabel: string)

  /** What the categories endpoint reports about one category. */
  datatype Brief = Brief(id: string, name: string, icon: string, count: nat)

  /** A category takes part in the pool when no id is asked for, or when its
      id is the one asked for. */
  predicate Selected(c: Category, categoryId: string)
  {
    categoryId == "" || c.id == categoryId
  }

  /** The items of one category, in order, each tagged with its label. */
  function Tagged(c: Category): (es: seq<Entry>)
    ensures |es| == |c.items|
    ensures forall j :: 0 <= j < |es| ==> es[j] == Entry(c.items[j], c.name)
  {
    seq(|c.items|, j requires 0 <= j < |c.items| => Entry(c.items[j], c.name))
  }

  /** The candidate pool: the tagged items of every selected category, in
      dataset order. */
  function Pool(cats: seq<Category>, categoryId: string): seq<Entry>
    decreases |cats|
  {
    if cats == [] then []
    else
      var last := cats[|cats| - 1];
      Pool(cats[..|cats| - 1], categoryId) + (if Selected(last, categoryId) then Tagged(last) else [])
  }

  /** The number of items in the selected categories. */
  function SelectedCount(cats: seq<Category>, categoryId: string): nat
    decreases |cats|
  {
    if cats == [] then 0
    else
      var last := cats[|cats| - 1];
      SelectedCount(cats[..|cats| - 1], categoryId) + (if Selected(last, categoryId) then |last.items| else 0)
  }

  function Summary(c: Category): Brief
  {
    Brief(c.id, c.name, c.icon, |c.items|)
  }

  /** The sum of the `count` fields of a list of summaries. */
  function TotalCount(briefs: seq<Brief>): nat
    decreases |briefs|
  {
    if briefs == [] then 0 else TotalCount(briefs[..|briefs| - 1]) + briefs[|briefs| - 1].count
  }

  predicate UniqueIds(cats: seq<Category>)
  {
    forall i, j :: 0 <= i < j < |cats| ==> cats[i].id != cats[j].id
  }

  /** The index of the first category whose id is `categoryId`
      (JavaScript's `find`, Go's search loop with an early return). */
  function FindCategory(cats: seq<Category>, categoryId: string): (r: Option<nat>)
    ensures r.Some? ==> r.value < |cats| && cats[r.value].id == categoryId
    ensures r.Some? ==> forall j :: 0 <= j < r.value ==> cats[j].id != categoryId
    ensures r.None? ==> forall j :: 0 <= j < |cats| ==> cats[j].id != categoryId
    decreases |cats|
  {
    if cats == [] then None
    else if cats[0].id == categoryId then Some(0)
    else
      match FindCategory(cats[1..], categoryId)
      case Some(i) => Some(i + 1)
      case None => None
  }

  // ---------------------------------------------------------------------------
  // Properties of the pool
  // ---------------------------------------------------------------------------

  /** The pool has exactly as many entries as the selected categories have items. */
  lemma {:induction false} PoolSize(cats: seq<Category>, categoryId: string)
    ensures |Pool(cats, categoryId)| == SelectedCount(cats, categoryId)
    decreases |cats|
  {
    if cats != [] {
      PoolSize(cats[..|cats| - 1], categoryId);
    }
  }

  /** Every item of a selected category is pooled under that category's label. */
  lemma {:induction false} PoolHasItem(cats: seq<Category>, categoryId: string, i: nat, j: nat)
    requires i < |cats| && Selected(cats[i], categoryId) && j < |cats[i].items|
    ensures Entry(cats[i].items[j], cats[i].name) in Pool(cats, categoryId)
    decreases |cats|
  {
    var n := |cats| - 1;
    var init := cats[..n];
    var part := if Selected(cats[n], categoryId) then Tagged(cats[n]) else [];
    assert Pool(cats, categoryId) == Pool(init, categoryId) + part;
    if i < n {
      assert init[i] == cats[i];
      PoolHasItem(init, categoryId, i, j);
    } else {
      assert part[j] == Entry(cats[i].items[j], cats[i].name);
    }
  }

  /** Every pooled entry is an item of a selected category under its label. */
  lemma {:induction false} PoolEntryOrigin(cats: seq<Category>, categoryId: string, e: Entry)
    requires e in Pool(cats, categoryId)
    ensures exists i, j :: 0 <= i < |cats| && Selected(cats[i], categoryId) &&
                           0 <= j < |cats[i].items| && e == Entry(cats[i].items[j], cats[i].name)
    decreases |cats|
  {
    var n := |cats| - 1;
    var init := cats[..n];
    var part := if Selected(cats[n], categoryId) then Tagged(cats[n]) else [];
    assert Pool(cats, categoryId) == Pool(init, categoryId) + part;
    if e in Pool(init, categoryId) {
      PoolEntryOrigin(init, categoryId, e);
      var i, j :| 0 <= i < |init| && Selected(init[i], categoryId) && 0 <= j < |init[i].items| &&
        e == Entry(init[i].items[j], init[i].name);
      assert cats[i] == init[i];
    } else {
      var j :| 0 <= j < |part| && part[j] == e;
      assert e == Entry(cats[n].items[j], cats[n].name);
    }
  }

  /** An entry is in the pool exactly when it is an item of a selected
      category paired with that category's label: filtering neither invents
      nor mislabels items. */
  lemma PoolMembers(cats: seq<Category>, categoryId: string, e: Entry)
    ensures e in Pool(cats, categoryId) <==>
      exists i, j :: 0 <= i < |cats| && Selected(cats[i], categoryId) && 0 <= j < |cats[i].items| &&
        e == Entry(cats[i].items[j], cats[i].name)
  {
    if e in Pool(cats, categoryId) {
      PoolEntryOrigin(cats, categoryId, e);
    }
    if exists i, j :: 0 <= i < |cats| && Selected(cats[i], categoryId) && 0 <= j < |cats[i].items| &&
         e == Entry(cats[i].items[j], cats[i].name) {
      var i, j :| 0 <= i < |cats| && Selected(cats[i], categoryId) && 0 <= j < |cats[i].items| &&
        e == Entry(cats[i].items[j], cats[i].name);
      PoolHasItem(cats, categoryId, i, j);
    }
  }

  /** Without a filter the pool holds every item of the dataset, so its size
      is the sum of the counts the categories endpoint reports. */
  lemma {:induction false} UnfilteredPoolSize(cats: seq<Category>)
    ensures |Pool(cats, "")| == TotalCount(Summaries(cats))
    decreases |cats|
  {
    PoolSize(cats, "");
    if cats != [] {
      var init := cats[..|cats| - 1];
      UnfilteredPoolSize(init);
      assert Summaries(cats)[..|cats| - 1] == Summaries(init);
      PoolSize(init, "");
    }
  }

  function Summaries(cats: seq<Category>): (bs: seq<Brief>)
    ensures |bs| == |cats|
    ensures forall i :: 0 <= i < |cats| ==> bs[i] == Summary(cats[i])
  {
    seq(|cats|, i requires 0 <= i < |cats| => Summary(cats[i]))
  }

  /** Asking for an id no category has gives an empty pool, exactly as a
      category without items does: there is no separate "not found" here. */
  lemma {:induction false} UnknownIdEmptyPool(cats: seq<Category>, categoryId: string)
    requires categoryId != "" && FindCategory(cats, categoryId).None?
    ensures Pool(cats, categoryId) == []
    decreases |cats|
  {
    if cats != [] {
      var init := cats[..|cats| - 1];
      forall j | 0 <= j < |init| ensures init[j].id != categoryId {
        assert init[j] == cats[j];
      }
      UnknownIdEmptyPool(init, categoryId);
    }
  }

  /** With distinct ids, filtering on a known id pools exactly the items the
      category endpoint returns for it, in the same order, under its label. */
  lemma {:induction false} PoolOfKnownId(cats: seq<Category>, categoryId: string)
    requires UniqueIds(cats)
    requires categoryId != "" && FindCategory(cats, categoryId).Some?
    ensures Pool(cats, categoryId) == Tagged(cats[FindCategory(cats, categoryId).value])
    decreases |cats|
  {
    var k := FindCategory(cats, categoryId).value;
    var n := |cats| - 1;
    var init := cats[..n];
    if k == n {
      forall j | 0 <= j < |init| ensures init[j].id != categoryId {
        assert init[j] == cats[j];
      }
      UnknownIdEmptyPool(init, categoryId);
    } else {
      assert cats[n].id != cats[k].id;
      assert init[k] == cats[k];
      forall j | 0 <= j < k ensures init[j].id != categoryId {
        assert init[j] == cats[j];
      }
      assert FindCategory(init, categoryId) == Some(k);
      assert UniqueIds(init) by {
        forall i, j | 0 <= i < j < |init| ensures init[i].id != init[j].id {
          assert init[i] == cats[i] && init[j] == cats[j];
        }
      }
      PoolOfKnownId(init, categoryId);
      assert init[k] == cats[k];
    }
  }
}
