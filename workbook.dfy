/**
  The spreadsheet diary.xlsx as the list of its rows, and the rows save_to_excel
  appends for a diary: one per entry, visiting the users in dict order and each
  user's entries in list order.
*/
module Workbook {
  import opened Wrappers
  import opened Diary

  type Row = seq<string>

  /** The first row of a sheet the bot creates. */
  const Header: Row := ["Дата", "Пользователь", "Ситуация", "Факты", "Эмоции"]

  /** The date cell of an entry without a date. */
  const NoDate: string := "Не указано"

  /** One (user id, entry) pair visited by save_to_excel's nested loops. */
  datatype Item = Item(user: string, entry: Entry)

  /** User u's entries, each paired with u, in list order. */
  function UserItems(u: string, es: seq<Entry>): seq<Item> {
    seq(|es|, j requires 0 <= j < |es| => Item(u, es[j]))
  }

  /** Every one of the given keys is a key of the map. */
  predicate KeysIn(users: seq<string>, logs: map<string, seq<Entry>>) {
    forall i :: 0 <= i < |users| ==> users[i] in logs
  }

  /** How many entries the given keys hold together. */
  function EntryCount(users: seq<string>, logs: map<string, seq<Entry>>): nat
    requires KeysIn(users, logs)
  {
    if users == [] then 0
    else EntryCount(users[..|users| - 1], logs) + |logs[users[|users| - 1]]|
  }

  /**
    The pairs visited for the given keys: the keys in order and, within a key, its
    entries in order.
  */
  function ItemsOf(users: seq<string>, logs: map<string, seq<Entry>>): (items: seq<Item>)
    requires KeysIn(users, logs)
    ensures |items| == EntryCount(users, logs)
  {
    if users == [] then []
    else
      var last := users[|users| - 1];
      ItemsOf(users[..|users| - 1], logs) + UserItems(last, logs[last])
  }

  /** The pairs visited for a whole diary. */
  function Items(d: Diary): seq<Item> {
    assert KeysIn(d.users, d.logs);
    ItemsOf(d.users, d.logs)
  }

  /** The total number of entries in a diary, over all users. */
  function TotalEntries(d: Diary): nat {
    assert KeysIn(d.users, d.logs);
    EntryCount(d.users, d.logs)
  }

  /** The fields save_to_excel reads without a default. */
  predicate Complete(e: Entry) {
    SituationKey in e && FactsKey in e && EmotionsKey in e
  }

  /**
    The key whose lookup raises KeyError when the row for e is built, if any: the
    situation is read before the facts, and the facts before the emotions.
  */
  function MissingKey(e: Entry): (k: Option<string>)
    ensures k.None? <==> Complete(e)
    ensures k.Some? ==> k.value !in e && k.value in {SituationKey, FactsKey, EmotionsKey}
    ensures SituationKey !in e ==> k == Some(SituationKey)
    ensures SituationKey in e && FactsKey !in e ==> k == Some(FactsKey)
  {
    if SituationKey !in e then Some(SituationKey)
    else if FactsKey !in e then Some(FactsKey)
    else if EmotionsKey !in e then Some(EmotionsKey)
    else None
  }

  /**
    The KeyError raised while the items are visited in order: the missing key of the
    first incomplete entry, or None when every entry is complete.
  */
  function FirstMissing(items: seq<Item>): Option<string> {
    if items == [] then None
    else
      var init := items[..|items| - 1];
      if FirstMissing(init).Some? then FirstMissing(init)
      else MissingKey(items[|items| - 1].entry)
  }

  /** The value of field k of e, or `default` when e has no such field. */
  function Field(e: Entry, k: string, default: string): string {
    if k in e then e[k] else default
  }

  /**
    The row appended for one entry; a missing date becomes NoDate. The other three
    fields are only ever read from a complete entry (an incomplete one raises
    before its row is built), so their fallback never reaches a sheet.
  */
  function RowOf(item: Item): (row: Row)
    ensures |row| == |Header|
  {
    var e := item.entry;
    [Field(e, DateKey, NoDate), item.user, Field(e, SituationKey, ""), Field(e, FactsKey, ""), Field(e, EmotionsKey, "")]
  }

  /** The rows appended for the visited items, one per item, in visiting order. */
  function Rows(items: seq<Item>): (rows: seq<Row>)
    ensures |rows| == |items|
  {
    seq(|items|, n requires 0 <= n < |items| => RowOf(items[n]))
  }

  /** The sheet save_to_excel starts from: a new one holding the header, or the saved rows. */
  function Opened(xlsx: Option<seq<Row>>): (sheet: seq<Row>)
    ensures xlsx.None? ==> sheet == [Header]
    ensures xlsx.Some? ==> sheet == xlsx.value
  {
    match xlsx
    case None => [Header]
    case Some(rows) => rows
  }

  /** The entry built for a message is complete, and its row holds the date, user and text. */
  lemma NewEntryRow(date: string, u: string, text: string)
    ensures Complete(NewEntry(date, text))
    ensures RowOf(Item(u, NewEntry(date, text))) == [date, u, text, "", ""]
  {
  }

  /** Visiting a prefix of the keys visits a prefix of the pairs. */
  lemma {:induction false} ItemsPrefix(users: seq<string>, logs: map<string, seq<Entry>>, n: nat)
    requires KeysIn(users, logs)
    requires n <= |users|
    ensures ItemsOf(users[..n], logs) <= ItemsOf(users, logs)
    decreases |users| - n
  {
    if n < |users| {
      var init := users[..|users| - 1];
      ItemsPrefix(init, logs, n);
      assert init[..n] == users[..n];
    } else {
      assert users[..n] == users;
    }
  }

  /** One more key visits that key's pairs after all the others. */
  lemma ItemsSnoc(users: seq<string>, u: string, logs: map<string, seq<Entry>>)
    requires KeysIn(users, logs) && u in logs
    ensures KeysIn(users + [u], logs)
    ensures ItemsOf(users + [u], logs) == ItemsOf(users, logs) + UserItems(u, logs[u])
  {
    assert (users + [u])[..|users|] == users;
  }

  /** Visiting a concatenation of keys visits the pairs of each part in turn. */
  lemma {:induction false} ItemsConcat(a: seq<string>, b: seq<string>, logs: map<string, seq<Entry>>)
    requires KeysIn(a, logs)
    requires KeysIn(b, logs)
    ensures ItemsOf(a + b, logs) == ItemsOf(a, logs) + ItemsOf(b, logs)
    decreases |b|
  {
    if b == [] {
      assert a + b == a;
    } else {
      var init := b[..|b| - 1];
      var last := b[|b| - 1];
      assert KeysIn(init, logs);
      ItemsConcat(a, init, logs);
      assert (a + b)[..|a + b| - 1] == a + init && (a + b)[|a + b| - 1] == last;
      assert KeysIn(a + b, logs) by {
        forall k | 0 <= k < |a + b| ensures (a + b)[k] in logs {
          if k < |a| { assert (a + b)[k] == a[k]; } else { assert (a + b)[k] == b[k - |a|]; }
        }
      }
      assert ItemsOf(b, logs) == ItemsOf(init, logs) + UserItems(last, logs[last]);
      assert ItemsOf(a + b, logs) == ItemsOf(a + init, logs) + UserItems(last, logs[last]);
    }
  }

  /** The pairs visited for some keys do not depend on the lists of other keys. */
  lemma {:induction false} ItemsFrame(users: seq<string>, logs: map<string, seq<Entry>>, u: string, es: seq<Entry>)
    requires KeysIn(users, logs)
    requires u !in users
    ensures ItemsOf(users, logs[u := es]) == ItemsOf(users, logs)
    decreases |users|
  {
    if users != [] {
      ItemsFrame(users[..|users| - 1], logs, u, es);
    }
  }

  /**
    The loops have visited, before entry j of the i-th user, exactly the entries of
    the users before it and that user's first j entries: a prefix of all the pairs.
  */
  lemma ItemsVisitedBefore(d: Diary, i: nat, j: nat)
    requires i < |d.users| && j <= |d.logs[d.users[i]]|
    ensures KeysIn(d.users[..i], d.logs)
    ensures ItemsOf(d.users[..i], d.logs) + UserItems(d.users[i], d.logs[d.users[i]][..j]) <= Items(d)
  {
    var u := d.users[i];
    ItemsPrefix(d.users, d.logs, i + 1);
    assert d.users[..i + 1][..i] == d.users[..i];
    assert UserItems(u, d.logs[u][..j]) <= UserItems(u, d.logs[u]);
  }

  /**
    One pair per entry in user order, then entry order: entry j of the i-th user is
    visited after all the entries of the users before it and the j entries before it.
  */
  lemma ItemsAt(d: Diary, i: nat, j: nat)
    requires i < |d.users| && j < |d.logs[d.users[i]]|
    ensures KeysIn(d.users[..i], d.logs)
    ensures EntryCount(d.users[..i], d.logs) + j < |Items(d)|
    ensures Items(d)[EntryCount(d.users[..i], d.logs) + j] == Item(d.users[i], d.logs[d.users[i]][j])
  {
    ItemsVisitedBefore(d, i, j + 1);
    var u := d.users[i];
    var visited := ItemsOf(d.users[..i], d.logs) + UserItems(u, d.logs[u][..j + 1]);
    assert visited[EntryCount(d.users[..i], d.logs) + j] == Item(u, d.logs[u][j]);
  }

  /**
    The rows of a diary follow its pairs: row EntryCount(users[..i]) + j is the row
    of entry j of the i-th user, and there is one row per entry.
  */
  lemma RowsAt(d: Diary, i: nat, j: nat)
    requires i < |d.users| && j < |d.logs[d.users[i]]|
    ensures KeysIn(d.users[..i], d.logs)
    ensures |Rows(Items(d))| == TotalEntries(d)
    ensures EntryCount(d.users[..i], d.logs) + j < |Rows(Items(d))|
    ensures Rows(Items(d))[EntryCount(d.users[..i], d.logs) + j] == RowOf(Item(d.users[i], d.logs[d.users[i]][j]))
  {
    ItemsAt(d, i, j);
  }

  /** A KeyError within the first part of the items is the one raised. */
  lemma {:induction false} FirstMissingConcat(a: seq<Item>, b: seq<Item>)
    ensures FirstMissing(a + b) == if FirstMissing(a).Some? then FirstMissing(a) else FirstMissing(b)
    decreases |b|
  {
    if b == [] {
      assert a + b == a;
    } else {
      var init := b[..|b| - 1];
      FirstMissingConcat(a, init);
      assert (a + b)[..|a + b| - 1] == a + init;
      assert init + [b[|b| - 1]] == b;
      if FirstMissing(a).None? && FirstMissing(init).None? {
        assert b[..|b| - 1] == init;
      }
    }
  }

  /** No KeyError is raised exactly when every visited entry is complete. */
  lemma {:induction false} FirstMissingNone(items: seq<Item>)
    ensures FirstMissing(items).None? <==> forall n :: 0 <= n < |items| ==> Complete(items[n].entry)
    decreases |items|
  {
    if items != [] {
      var init := items[..|items| - 1];
      FirstMissingNone(init);
      assert forall n :: 0 <= n < |init| ==> init[n] == items[n];
    }
  }

  /** One more item raises its own KeyError only when none was raised before it. */
  lemma FirstMissingSnoc(items: seq<Item>, x: Item)
    ensures FirstMissing(items + [x]) ==
            if FirstMissing(items).Some? then FirstMissing(items) else MissingKey(x.entry)
  {
    assert (items + [x])[..|items|] == items;
  }

  /**
    The KeyError raised is that of entry n when every entry visited before it is
    complete and it is not.
  */
  lemma FirstMissingAt(items: seq<Item>, n: nat)
    requires n < |items| && !Complete(items[n].entry)
    requires forall m :: 0 <= m < n ==> Complete(items[m].entry)
    ensures FirstMissing(items) == MissingKey(items[n].entry)
  {
    var before, upto := items[..n], items[..n + 1];
    assert FirstMissing(before).None? by {
      assert forall m :: 0 <= m < |before| ==> before[m] == items[m];
      FirstMissingNone(before);
    }
    assert FirstMissing(upto) == MissingKey(items[n].entry) by {
      assert upto == before + [items[n]];
      FirstMissingSnoc(before, items[n]);
    }
    assert items == upto + items[n + 1..];
    FirstMissingConcat(upto, items[n + 1..]);
  }

  /** Where the pair of a newly recorded entry lands among the pairs visited. */
  function InsertionPoint(d: Diary, u: string): nat {
    if u in d.logs then EntryCount(d.users[..Position(d.users, u) + 1], d.logs)
    else TotalEntries(d)
  }

  /** A key of a sequence without repetitions occurs neither before nor after its position. */
  lemma DistinctSplit<T>(s: seq<T>, i: nat)
    requires Distinct(s) && i < |s|
    ensures s[i] !in s[..i] && s[i] !in s[i + 1..]
  {
    var after := s[i + 1..];
    forall k | 0 <= k < |after| ensures after[k] != s[i] {
      assert after[k] == s[i + 1 + k];
    }
  }

  /** Appending an entry to a user's list adds one pair at the end of that user's pairs. */
  lemma UserItemsSnoc(u: string, es: seq<Entry>, e: Entry)
    ensures UserItems(u, es + [e]) == UserItems(u, es) + [Item(u, e)]
  {
  }

  /** A user's pairs are those of the first j entries, then those of the rest. */
  lemma UserItemsSplit(u: string, es: seq<Entry>, j: nat)
    requires j <= |es|
    ensures UserItems(u, es) == UserItems(u, es[..j]) + UserItems(u, es[j..])
  {
  }

  /**
    Giving the i-th key, which occurs nowhere else, the list es changes only that
    key's pairs: those of the keys before it come first, those after it last.
  */
  lemma ItemsUpdate(users: seq<string>, logs: map<string, seq<Entry>>, i: nat, es: seq<Entry>)
    requires KeysIn(users, logs) && i < |users|
    requires users[i] !in users[..i] && users[i] !in users[i + 1..]
    ensures KeysIn(users, logs[users[i] := es])
    ensures ItemsOf(users, logs[users[i] := es]) ==
            ItemsOf(users[..i], logs) + UserItems(users[i], es) + ItemsOf(users[i + 1..], logs)
  {
    var u := users[i];
    var m := logs[u := es];
    var before, after := users[..i], users[i + 1..];
    assert users == before + [u] + after;
    ItemsSnoc(before, u, m);
    ItemsConcat(before + [u], after, m);
    ItemsFrame(before, logs, u, es);
    ItemsFrame(after, logs, u, es);
  }

  /**
    Appending e to the list of the i-th key, which occurs nowhere else, adds its pair
    right after the pairs of the keys up to and including the i-th.
  */
  lemma ItemsAppendAt(users: seq<string>, logs: map<string, seq<Entry>>, i: nat, e: Entry)
    requires KeysIn(users, logs) && i < |users|
    requires users[i] !in users[..i] && users[i] !in users[i + 1..]
    ensures KeysIn(users, logs[users[i] := logs[users[i]] + [e]])
    ensures KeysIn(users[..i + 1], logs) && KeysIn(users[i + 1..], logs)
    ensures ItemsOf(users, logs) == ItemsOf(users[..i + 1], logs) + ItemsOf(users[i + 1..], logs)
    ensures ItemsOf(users, logs[users[i] := logs[users[i]] + [e]]) ==
            ItemsOf(users[..i + 1], logs) + [Item(users[i], e)] + ItemsOf(users[i + 1..], logs)
  {
    var u := users[i];
    ItemsSplitAt(users, logs, i);
    ItemsUpdate(users, logs, i, logs[u] + [e]);
    UserItemsSnoc(u, logs[u], e);
  }

  /** The pairs of all keys are those up to and including the i-th, then the rest. */
  lemma ItemsSplitAt(users: seq<string>, logs: map<string, seq<Entry>>, i: nat)
    requires KeysIn(users, logs) && i < |users|
    requires users[i] !in users[..i] && users[i] !in users[i + 1..]
    ensures KeysIn(users[..i + 1], logs) && KeysIn(users[i + 1..], logs)
    ensures ItemsOf(users[..i + 1], logs) == ItemsOf(users[..i], logs) + UserItems(users[i], logs[users[i]])
    ensures ItemsOf(users, logs) == ItemsOf(users[..i + 1], logs) + ItemsOf(users[i + 1..], logs)
  {
    var u := users[i];
    assert logs[u := logs[u]] == logs;
    ItemsUpdate(users, logs, i, logs[u]);
    assert users[..i + 1] == users[..i] + [u];
    ItemsSnoc(users[..i], u, logs);
  }

  /** Recording for a user already present inserts the pair after that user's pairs. */
  lemma RecordedItemsExisting(d: Diary, u: string, e: Entry)
    requires u in d.logs
    ensures InsertionPoint(d, u) <= |Items(d)|
    ensures Items(Recorded(d, u, e)) ==
            Items(d)[..InsertionPoint(d, u)] + [Item(u, e)] + Items(d)[InsertionPoint(d, u)..]
  {
    var i := Position(d.users, u);
    PositionSplit(d, u);
    ItemsInsertAt(d.users, d.logs, i, e);
    RecordedExisting(d, u, e);
  }

  /** A key of a diary occurs once among its keys, and every key has a list. */
  lemma PositionSplit(d: Diary, u: string)
    requires u in d.logs
    ensures KeysIn(d.users, d.logs)
    ensures var i := Position(d.users, u);
            d.users[i] !in d.users[..i] && d.users[i] !in d.users[i + 1..]
  {
    DistinctSplit(d.users, Position(d.users, u));
  }

  /** Recording for a user already present only replaces that user's list. */
  lemma RecordedExisting(d: Diary, u: string, e: Entry)
    requires u in d.logs
    ensures KeysIn(d.users, d.logs[u := d.logs[u] + [e]])
    ensures Items(Recorded(d, u, e)) == ItemsOf(d.users, d.logs[u := d.logs[u] + [e]])
  {
    assert Recorded(d, u, e) == Dict(d.users, d.logs[u := d.logs[u] + [e]]);
  }

  /**
    Appending e to the list of the i-th key, which occurs nowhere else, inserts its
    pair among all the pairs right after those of the keys up to the i-th.
  */
  lemma ItemsInsertAt(users: seq<string>, logs: map<string, seq<Entry>>, i: nat, e: Entry)
    requires KeysIn(users, logs) && i < |users|
    requires users[i] !in users[..i] && users[i] !in users[i + 1..]
    ensures KeysIn(users[..i + 1], logs) && KeysIn(users, logs[users[i] := logs[users[i]] + [e]])
    ensures var items, p := ItemsOf(users, logs), EntryCount(users[..i + 1], logs);
            && p <= |items|
            && ItemsOf(users, logs[users[i] := logs[users[i]] + [e]]) == items[..p] + [Item(users[i], e)] + items[p..]
  {
    ItemsAppendAt(users, logs, i, e);
    var head, tail := ItemsOf(users[..i + 1], logs), ItemsOf(users[i + 1..], logs);
    var items := ItemsOf(users, logs);
    assert items[..|head|] == head && items[|head|..] == tail;
  }

  /** Recording for a new user appends the pair at the very end. */
  lemma RecordedItemsNew(d: Diary, u: string, e: Entry)
    requires u !in d.logs
    ensures Items(Recorded(d, u, e)) == Items(d) + [Item(u, e)]
  {
    var r := Recorded(d, u, e);
    assert r.users[..|r.users| - 1] == d.users;
    assert r.users[|r.users| - 1] == u;
    assert u !in d.users;
    ItemsFrame(d.users, d.logs, u, [e]);
    assert UserItems(u, [e]) == [Item(u, e)];
    calc {
      Items(r);
      ItemsOf(r.users, r.logs);
      ItemsOf(d.users, r.logs) + UserItems(u, [e]);
      ItemsOf(d.users, d.logs) + [Item(u, e)];
    }
  }

  /**
    Recording entry e of user u inserts exactly one pair, right after u's earlier
    entries; for a new user that is the very end.
  */
  lemma RecordedItems(d: Diary, u: string, e: Entry)
    ensures InsertionPoint(d, u) <= |Items(d)|
    ensures Items(Recorded(d, u, e)) ==
            Items(d)[..InsertionPoint(d, u)] + [Item(u, e)] + Items(d)[InsertionPoint(d, u)..]
  {
    if u in d.logs {
      RecordedItemsExisting(d, u, e);
    } else {
      var items := Items(d);
      assert InsertionPoint(d, u) == |items|;
      RecordedItemsNew(d, u, e);
      InsertAtEnd(items, |items|, Item(u, e));
    }
  }

  /** Recording adds exactly one entry to the diary's total. */
  lemma RecordedTotal(d: Diary, u: string, e: Entry)
    ensures TotalEntries(Recorded(d, u, e)) == TotalEntries(d) + 1
  {
    RecordedItems(d, u, e);
  }

  /**
    An entry that carries every field never changes which KeyError is raised: once
    the diary holds an incomplete entry, every later recording still fails on it.
  */
  lemma RecordedKeepsFirstMissing(d: Diary, u: string, e: Entry)
    requires Complete(e)
    ensures FirstMissing(Items(Recorded(d, u, e))) == FirstMissing(Items(d))
  {
    RecordedItems(d, u, e);
    FirstMissingInsert(Items(d), InsertionPoint(d, u), Item(u, e));
  }

  /** Inserting a complete item anywhere leaves the KeyError raised unchanged. */
  lemma FirstMissingInsert(items: seq<Item>, p: nat, x: Item)
    requires Complete(x.entry) && p <= |items|
    ensures FirstMissing(items[..p] + [x] + items[p..]) == FirstMissing(items)
  {
    assert items == items[..p] + items[p..];
    FirstMissingBetween(items[..p], items[p..], x);
  }

  /** A complete item between two runs of items leaves their KeyError unchanged. */
  lemma FirstMissingBetween(a: seq<Item>, b: seq<Item>, x: Item)
    requires Complete(x.entry)
    ensures FirstMissing(a + [x] + b) == FirstMissing(a + b)
  {
    FirstMissingConcat(a, b);
    FirstMissingSnoc(a, x);
    FirstMissingConcat(a + [x], b);
  }

  /** The rows of two runs of items, one after the other, are the rows of each in turn. */
  lemma RowsConcat(a: seq<Item>, b: seq<Item>)
    ensures Rows(a + b) == Rows(a) + Rows(b)
  {
    forall n | 0 <= n < |a + b| ensures Rows(a + b)[n] == (Rows(a) + Rows(b))[n] {
      if n >= |a| {
        assert (a + b)[n] == b[n - |a|];
      }
    }
  }

  /** The pairs of a user's first j + 1 entries are those of the first j, then the j-th. */
  lemma UserItemsNext(user: string, entries: seq<Entry>, j: nat)
    requires j < |entries|
    ensures UserItems(user, entries[..j + 1]) == UserItems(user, entries[..j]) + [Item(user, entries[j])]
  {
    UserItemsSnoc(user, entries[..j], entries[j]);
    assert entries[..j + 1] == entries[..j] + [entries[j]];
  }

  /** Appending the row of one more item keeps the sheet equal to the rows visited. */
  lemma SheetSnocRow(start: seq<Row>, sheet: seq<Row>, visited: seq<Item>, x: Item)
    requires sheet == start + Rows(visited)
    ensures sheet + [RowOf(x)] == start + Rows(visited + [x])
  {
    assert Rows([x]) == [RowOf(x)];
    SheetConcatRows(start, sheet, visited, [x]);
  }

  /** Appending the rows of more items keeps the sheet equal to the rows visited. */
  lemma SheetConcatRows(start: seq<Row>, sheet: seq<Row>, visited: seq<Item>, more: seq<Item>)
    requires sheet == start + Rows(visited)
    ensures sheet + Rows(more) == start + Rows(visited + more)
  {
    RowsConcat(visited, more);
    assert start + Rows(visited) + Rows(more) == start + (Rows(visited) + Rows(more));
  }

  /** The rows of one more item are the earlier rows and then its row. */
  lemma RowsSnoc(items: seq<Item>, x: Item)
    ensures Rows(items + [x]) == Rows(items) + [RowOf(x)]
  {
    assert Rows([x]) == [RowOf(x)];
    RowsConcat(items, [x]);
  }

  /** The rows of the items before and after a cut are the rows before and after it. */
  lemma RowsSplit(items: seq<Item>, p: nat)
    requires p <= |items|
    ensures Rows(items) == Rows(items[..p]) + Rows(items[p..])
  {
    assert items == items[..p] + items[p..];
    RowsConcat(items[..p], items[p..]);
  }

  /** Inserting an item inserts its row at the same place among the rows. */
  lemma RowsInsert(items: seq<Item>, p: nat, x: Item)
    requires p <= |items|
    ensures Rows(items[..p] + [x] + items[p..]) == Rows(items)[..p] + [RowOf(x)] + Rows(items)[p..]
  {
    RowsSplit(items, p);
    var before, after := items[..p], items[p..];
    assert Rows([x]) == [RowOf(x)];
    RowsConcat(before, [x]);
    RowsConcat(before + [x], after);
    var rows := Rows(items);
    assert rows[..p] == Rows(before) && rows[p..] == Rows(after);
  }

  /**
    The rows materialised after a recording are the earlier rows with the new
    entry's row inserted after the user's earlier rows: one more row than the
    diary held entries before.
  */
  lemma RecordedRows(d: Diary, u: string, e: Entry)
    ensures InsertionPoint(d, u) <= TotalEntries(d)
    ensures |Rows(Items(Recorded(d, u, e)))| == TotalEntries(d) + 1
    ensures Rows(Items(Recorded(d, u, e))) ==
            Rows(Items(d))[..InsertionPoint(d, u)] + [RowOf(Item(u, e))] + Rows(Items(d))[InsertionPoint(d, u)..]
  {
    RecordedItems(d, u, e);
    RowsInsert(Items(d), InsertionPoint(d, u), Item(u, e));
  }

  /**
    The new entry's row is the last row exactly when its user is new or already the
    last key: only then is the insertion point the end of the rows.
  */
  lemma RecordedLastRow(d: Diary, u: string, e: Entry)
    requires u !in d.logs || d.users[|d.users| - 1] == u
    ensures Rows(Items(Recorded(d, u, e))) == Rows(Items(d)) + [RowOf(Item(u, e))]
  {
    var items, x, p := Items(d), Item(u, e), InsertionPoint(d, u);
    assert Items(Recorded(d, u, e)) == items + [x] by {
      InsertionAtEnd(d, u);
      RecordedItems(d, u, e);
      InsertAtEnd(items, p, x);
    }
    RowsSnoc(items, x);
  }

  /** Inserting at the end of a sequence appends. */
  lemma InsertAtEnd<T>(s: seq<T>, p: nat, x: T)
    requires p == |s|
    ensures s[..p] + [x] + s[p..] == s + [x]
  {
    assert s[..p] == s && s[p..] == [];
  }

  /** The insertion point of a new user, or of the last key, is the end of the pairs. */
  lemma InsertionAtEnd(d: Diary, u: string)
    requires u !in d.logs || d.users[|d.users| - 1] == u
    ensures InsertionPoint(d, u) == |Items(d)|
  {
    if u in d.logs {
      var i := Position(d.users, u);
      assert forall k :: 0 <= k < |d.users| - 1 ==> d.users[k] != u;
      assert i == |d.users| - 1;
      assert d.users[..i + 1] == d.users;
    }
  }

  /**
    For a user already present who is not the last key, while the last key holds
    an entry, the new entry's row is not the last row: the last row stays the one
    of the last key's last entry.
  */
  lemma RecordedNotLastRow(d: Diary, u: string, e: Entry)
    requires u in d.logs && d.users[|d.users| - 1] != u && d.logs[d.users[|d.users| - 1]] != []
    ensures var rows := Rows(Items(Recorded(d, u, e)));
            var last := d.users[|d.users| - 1];
            && rows[|rows| - 1] == RowOf(Item(last, d.logs[last][|d.logs[last]| - 1]))
            && rows[|rows| - 1][1] != u
  {
    var last := d.users[|d.users| - 1];
    var lastItem := Item(last, d.logs[last][|d.logs[last]| - 1]);
    var items := Items(d);
    var p := InsertionPoint(d, u);
    InsertionBeforeLast(d, u);
    RecordedItems(d, u, e);
    RowsInsertBefore(items, p, Item(u, e));
    RowUser(lastItem);
  }

  /** The second cell of an item's row is its user id. */
  lemma RowUser(item: Item)
    ensures RowOf(item)[1] == item.user
  {
  }

  /**
    The insertion point of a user already present who is not the last key lies
    before the last pair, which belongs to the last key, when that key holds an entry.
  */
  lemma InsertionBeforeLast(d: Diary, u: string)
    requires u in d.logs && d.users[|d.users| - 1] != u && d.logs[d.users[|d.users| - 1]] != []
    ensures var last := d.users[|d.users| - 1];
            var items := Items(d);
            && InsertionPoint(d, u) < |items|
            && items[|items| - 1] == Item(last, d.logs[last][|d.logs[last]| - 1])
  {
    var i := Position(d.users, u);
    DistinctSplit(d.users, i);
    assert KeysIn(d.users, d.logs);
    ItemsSplitBeforeLast(d.users, d.logs, i);
  }

  /**
    Cutting the keys after the i-th, which occurs nowhere else and is not the last,
    leaves the last pair visited, that of the last key's last entry, after the cut.
  */
  lemma ItemsSplitBeforeLast(users: seq<string>, logs: map<string, seq<Entry>>, i: nat)
    requires KeysIn(users, logs) && i < |users| - 1
    requires users[i] !in users[..i] && users[i] !in users[i + 1..]
    requires logs[users[|users| - 1]] != []
    ensures KeysIn(users[..i + 1], logs)
    ensures var items := ItemsOf(users, logs);
            var last := users[|users| - 1];
            && EntryCount(users[..i + 1], logs) < |items|
            && items[|items| - 1] == Item(last, logs[last][|logs[last]| - 1])
  {
    var last := users[|users| - 1];
    var rest := users[i + 1..];
    assert rest != [] && rest[|rest| - 1] == last;
    assert KeysIn(rest, logs);
    ItemsSplitAt(users, logs, i);
    ItemsEndWith(rest, logs);
  }

  /** The last pair visited is the last entry of the last key, when that key holds one. */
  lemma ItemsEndWith(users: seq<string>, logs: map<string, seq<Entry>>)
    requires KeysIn(users, logs) && users != [] && logs[users[|users| - 1]] != []
    ensures var items := ItemsOf(users, logs);
            var es := logs[users[|users| - 1]];
            items != [] && items[|items| - 1] == Item(users[|users| - 1], es[|es| - 1])
  {
  }

  /** An item inserted before the end leaves the last row as it was. */
  lemma RowsInsertBefore(items: seq<Item>, p: nat, x: Item)
    requires p < |items|
    ensures var rows := Rows(items[..p] + [x] + items[p..]);
            |rows| == |items| + 1 && rows[|items|] == RowOf(items[|items| - 1])
  {
    RowsInsert(items, p, x);
    var before := Rows(items);
    assert before[p..][|before| - p - 1] == before[|before| - 1];
  }
}
