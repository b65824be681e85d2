/**
  The bot's handlers over the two files it keeps in its working directory:
  diary.json, the diary read and written whole, and diary.xlsx, the spreadsheet
  the diary is copied into and that /export sends.
*/
module Bot {
  import opened Wrappers
  import opened Diary
  import opened Workbook

  /** What diary.json holds: nothing, a diary `json.load` reads back, or text it rejects. */
  datatype DiaryFile = NoFile | Written(data: Diary) | Unparsable

  /** The exceptions that escape a handler. */
  datatype BotError = JsonDecodeError | KeyError(key: string)

  /** A handler's answer in the chat. */
  datatype Reply = Text(text: string) | Document(rows: seq<Row>, filename: string, caption: string)

  const RecordedText: string := "Я записал ситуацию. Теперь попробуй отделить факты от эмоций."
  const EmptyText: string := "Файл дневника пока пуст. Заполни его, отправляя записи!"
  const ExportCaption: string := "Вот твой дневник \U{1F60A}"
  const ExportName: string := "diary.xlsx"

  /**
    load_data: a missing file is the one failure turned into a value (the empty
    diary); any other read error escapes; a written diary reads back as it was.
  */
  function LoadData(json: DiaryFile): (r: Result<Diary, BotError>)
    ensures r.Failure? <==> json.Unparsable?
    ensures json.NoFile? ==> r == Success(Empty)
    ensures json.Written? ==> r == Success(json.data)
  {
    match json
    case NoFile => Success(Empty)
    case Written(d) => Success(d)
    case Unparsable => Failure(JsonDecodeError)
  }

  /** The two files the bot reads and writes. */
  class DiaryStore {
    var diaryJson: DiaryFile
    var diaryXlsx: Option<seq<Row>>

    constructor (json: DiaryFile, xlsx: Option<seq<Row>>)
      ensures diaryJson == json && diaryXlsx == xlsx
    {
      diaryJson := json;
      diaryXlsx := xlsx;
    }

    /** save_data: the file is replaced whole, so loading it next yields exactly data. */
    method SaveData(data: Diary)
      modifies this`diaryJson
      ensures diaryJson == Written(data)
      ensures LoadData(diaryJson) == Success(data)
    {
      diaryJson := Written(data);
    }

    /**
      save_to_excel: open the sheet (a new one starts with the header), append one
      row per entry in user order and then list order, and save. An entry without
      a situation, facts or emotions raises KeyError before the save, so the file
      keeps its old content.
    */
    method SaveToExcel(data: Diary) returns (outcome: Outcome<BotError>)
      modifies this`diaryXlsx
      ensures FirstMissing(Items(data)).None? ==>
                outcome == Pass && diaryXlsx == Some(Opened(old(diaryXlsx)) + Rows(Items(data)))
      ensures FirstMissing(Items(data)).Some? ==>
                outcome == Fail(KeyError(FirstMissing(Items(data)).value)) && diaryXlsx == old(diaryXlsx)
      ensures old(diaryXlsx).None? && outcome.Pass? ==> diaryXlsx.value[0] == Header
      ensures old(diaryXlsx).Some? ==> old(diaryXlsx).value <= diaryXlsx.value
      ensures outcome.Pass? ==> |diaryXlsx.value| == |Opened(old(diaryXlsx))| + TotalEntries(data)
    {
      var sheet: seq<Row>;
      if diaryXlsx.None? {
        sheet := [Header];
      } else {
        sheet := diaryXlsx.value;
      }
      ghost var start := sheet;
      var i := 0;
      while i < |data.users|
        invariant 0 <= i <= |data.users|
        invariant diaryXlsx == old(diaryXlsx)
        invariant KeysIn(data.users[..i], data.logs)
        invariant FirstMissing(ItemsOf(data.users[..i], data.logs)).None?
        invariant sheet == start + Rows(ItemsOf(data.users[..i], data.logs))
      {
        var user := data.users[i];
        ghost var old_sheet := sheet;
        var missing;
        sheet, missing := AppendRows(sheet, user, data.logs[user]);
        if missing.Some? {
          StopsAt(data, i);
          outcome := Fail(KeyError(missing.value));
          return;
        }
        VisitUser(data, i);
        assert FirstMissing(ItemsOf(data.users[..i + 1], data.logs)).None? by {
          FirstMissingConcat(ItemsOf(data.users[..i], data.logs), UserItems(user, data.logs[user]));
        }
        assert sheet == start + Rows(ItemsOf(data.users[..i + 1], data.logs)) by {
          SheetConcatRows(start, old_sheet, ItemsOf(data.users[..i], data.logs), UserItems(user, data.logs[user]));
        }
        i := i + 1;
      }
      assert FirstMissing(Items(data)).None? && sheet == Opened(diaryXlsx) + Rows(Items(data)) by {
        assert data.users[..i] == data.users;
      }
      diaryXlsx := Some(sheet);
      outcome := Pass;
    }

    /**
      handle_text: load the diary, append the message as a new entry of its sender,
      save the diary, then rewrite the spreadsheet from the whole diary. Every
      entry already stored is appended to the sheet again, so it grows by the
      total number of entries, not by one row.
    */
    method HandleText(userId: string, text: string, date: string) returns (outcome: Result<string, BotError>)
      modifies this
      ensures LoadData(old(diaryJson)).Failure? ==>
                outcome == Failure(JsonDecodeError) &&
                diaryJson == old(diaryJson) && diaryXlsx == old(diaryXlsx)
      ensures LoadData(old(diaryJson)).Success? ==>
                var before := LoadData(old(diaryJson)).value;
                var stored := Recorded(before, userId, NewEntry(date, text));
                && diaryJson == Written(stored)
                && (FirstMissing(Items(before)).None? ==>
                      && outcome == Success(RecordedText)
                      && FirstMissing(Items(stored)).None?
                      && diaryXlsx == Some(Opened(old(diaryXlsx)) + Rows(Items(stored)))
                      && |diaryXlsx.value| == |Opened(old(diaryXlsx))| + TotalEntries(before) + 1)
                && (FirstMissing(Items(before)).Some? ==>
                      outcome == Failure(KeyError(FirstMissing(Items(before)).value)) &&
                      diaryXlsx == old(diaryXlsx))
    {
      var loaded := LoadData(diaryJson);
      if loaded.Failure? {
        outcome := Failure(loaded.error);
        return;
      }
      var data := loaded.value;
      if userId !in data.logs {
        data := Assign(data, userId, []);
      }
      var entry := NewEntry(date, text);
      data := Assign(data, userId, data.logs[userId] + [entry]);
      ghost var before := loaded.value;
      assert data == Recorded(before, userId, entry) by {
        AppendIsRecorded(before, userId, entry);
      }
      SaveData(data);
      assert FirstMissing(Items(data)) == FirstMissing(Items(before)) by {
        NewEntryRow(date, userId, text);
        RecordedKeepsFirstMissing(before, userId, entry);
      }
      assert TotalEntries(data) == TotalEntries(before) + 1 by {
        RecordedTotal(before, userId, entry);
      }
      var saved := SaveToExcel(data);
      if saved.Fail? {
        outcome := Failure(saved.error);
        return;
      }
      outcome := Success(RecordedText);
    }

    /** export_data: the spreadsheet exactly when it exists, the "empty" reply otherwise. */
    method ExportData() returns (reply: Reply)
      ensures reply.Document? <==> diaryXlsx.Some?
      ensures diaryXlsx.Some? ==> reply == Document(diaryXlsx.value, ExportName, ExportCaption)
      ensures diaryXlsx.None? ==> reply == Text(EmptyText)
    {
      if diaryXlsx.Some? {
        reply := Document(diaryXlsx.value, ExportName, ExportCaption);
      } else {
        reply := Text(EmptyText);
      }
    }
  }

  /**
    Creating an empty list for a new sender and then appending to the sender's list
    stores the entry as Recorded describes.
  */
  lemma AppendIsRecorded(d: Diary, u: string, e: Entry)
    ensures var created := if u in d.logs then d else Assign(d, u, []);
            Assign(created, u, created.logs[u] + [e]) == Recorded(d, u, e)
  {
  }

  /**
    The inner loop of save_to_excel, over one user's entries: append each entry's
    row to the sheet, stopping at the first entry without a situation, facts or
    emotions with the key whose lookup fails.
  */
  method AppendRows(sheet: seq<Row>, user: string, entries: seq<Entry>) returns (rows: seq<Row>, missing: Option<string>)
    ensures missing == FirstMissing(UserItems(user, entries))
    ensures missing.None? ==> rows == sheet + Rows(UserItems(user, entries))
  {
    rows := sheet;
    var j := 0;
    while j < |entries|
      invariant 0 <= j <= |entries|
      invariant FirstMissing(UserItems(user, entries[..j])).None?
      invariant rows == sheet + Rows(UserItems(user, entries[..j]))
    {
      var entry := entries[j];
      var date := if DateKey in entry then entry[DateKey] else NoDate;
      if SituationKey !in entry || FactsKey !in entry || EmotionsKey !in entry {
        UserStopsAt(user, entries, j);
        missing := MissingKey(entry);
        return;
      }
      var row := [date, user, entry[SituationKey], entry[FactsKey], entry[EmotionsKey]];
      assert FirstMissing(UserItems(user, entries[..j + 1])).None? &&
             rows + [row] == sheet + Rows(UserItems(user, entries[..j + 1])) by {
        assert row == RowOf(Item(user, entry));
        UserItemsNext(user, entries, j);
        FirstMissingSnoc(UserItems(user, entries[..j]), Item(user, entry));
        SheetSnocRow(sheet, rows, UserItems(user, entries[..j]), Item(user, entry));
      }
      rows := rows + [row];
      j := j + 1;
    }
    assert entries[..j] == entries;
    missing := None;
  }

  /**
    An incomplete entry j of a user, reached with every earlier entry of that user
    complete, raises the KeyError of all the user's entries.
  */
  lemma UserStopsAt(user: string, entries: seq<Entry>, j: nat)
    requires j < |entries| && !Complete(entries[j])
    requires FirstMissing(UserItems(user, entries[..j])).None?
    ensures FirstMissing(UserItems(user, entries)) == MissingKey(entries[j])
  {
    UserItemsNext(user, entries, j);
    FirstMissingSnoc(UserItems(user, entries[..j]), Item(user, entries[j]));
    UserItemsSplit(user, entries, j + 1);
    FirstMissingConcat(UserItems(user, entries[..j + 1]), UserItems(user, entries[j + 1..]));
  }

  /** Once all entries of the i-th user are visited, the first i + 1 users are. */
  lemma VisitUser(d: Diary, i: nat)
    requires i < |d.users| && KeysIn(d.users[..i], d.logs)
    ensures KeysIn(d.users[..i + 1], d.logs)
    ensures ItemsOf(d.users[..i + 1], d.logs) ==
            ItemsOf(d.users[..i], d.logs) + UserItems(d.users[i], d.logs[d.users[i]])
  {
    assert d.users[..i + 1] == d.users[..i] + [d.users[i]];
    ItemsSnoc(d.users[..i], d.users[i], d.logs);
  }

  /**
    A KeyError among the entries of the i-th user, reached with every entry of the
    users before it complete, is the KeyError of the whole diary.
  */
  lemma StopsAt(d: Diary, i: nat)
    requires i < |d.users| && KeysIn(d.users[..i], d.logs)
    requires FirstMissing(ItemsOf(d.users[..i], d.logs)).None?
    requires FirstMissing(UserItems(d.users[i], d.logs[d.users[i]])).Some?
    ensures FirstMissing(Items(d)) == FirstMissing(UserItems(d.users[i], d.logs[d.users[i]]))
  {
    var user := d.users[i];
    var missing := FirstMissing(UserItems(user, d.logs[user]));
    VisitUser(d, i);
    var reached := ItemsOf(d.users[..i + 1], d.logs);
    assert FirstMissing(reached) == missing by {
      FirstMissingConcat(ItemsOf(d.users[..i], d.logs), UserItems(user, d.logs[user]));
    }
    var items := Items(d);
    assert items == reached + items[|reached|..] by {
      ItemsPrefix(d.users, d.logs, i + 1);
    }
    FirstMissingConcat(reached, items[|reached|..]);
  }

  /**
    Two messages from one user, starting without diary.json or diary.xlsx: the
    second save appends the first entry's row again, so the sheet holds the header,
    the first row twice and then the second row.
  */
  lemma RepeatedRows(u: string, date1: string, text1: string, date2: string, text2: string)
    ensures var first := Recorded(Empty, u, NewEntry(date1, text1));
            var second := Recorded(first, u, NewEntry(date2, text2));
            var row1 := [date1, u, text1, "", ""];
            var row2 := [date2, u, text2, "", ""];
            && FirstMissing(Items(first)).None?
            && FirstMissing(Items(second)).None?
            && Opened(None) + Rows(Items(first)) == [Header, row1]
            && [Header, row1] + Rows(Items(second)) == [Header, row1, row1, row2]
  {
    var e2 := NewEntry(date2, text2);
    var first := Recorded(Empty, u, NewEntry(date1, text1));
    FirstMessage(u, date1, text1);
    NewEntryRow(date2, u, text2);
    RecordedKeepsFirstMissing(first, u, e2);
    RecordedLastRow(first, u, e2);
  }

  /** A first message on a fresh diary is its only entry, and its row the only row. */
  lemma FirstMessage(u: string, date: string, text: string)
    ensures var first := Recorded(Empty, u, NewEntry(date, text));
            && first.users == [u]
            && FirstMissing(Items(first)).None?
            && Rows(Items(first)) == [[date, u, text, "", ""]]
  {
    var e := NewEntry(date, text);
    NewEntryRow(date, u, text);
    assert Items(Empty) == [];
    RecordedKeepsFirstMissing(Empty, u, e);
    RecordedLastRow(Empty, u, e);
  }
}
