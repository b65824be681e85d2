/**
  The diary kept in diary.json: a JSON object that maps each user id to the list of
  that user's entries, oldest first. Python dicts (and `json.load`) keep insertion
  order, and the spreadsheet rows follow that order, so the object is modelled as
  its keys in insertion order together with the key-to-list map.
*/
module Diary {

  /** One entry: a JSON object from field name to string value. */
  type Entry = map<string, string>

  const DateKey: string := "дата"
  const SituationKey: string := "ситуация"
  const FactsKey: string := "факты"
  const EmotionsKey: string := "эмоции"

  predicate Distinct<T(==)>(s: seq<T>) {
    forall i, j :: 0 <= i < j < |s| ==> s[i] != s[j]
  }

  /** A dict from user id to entry list; `users` lists its keys in insertion order. */
  datatype Dict = Dict(users: seq<string>, logs: map<string, seq<Entry>>) {
    ghost predicate Valid() {
      Distinct(users) && (forall u :: u in logs <==> u in users)
    }
  }

  type Diary = d: Dict | d.Valid() witness Dict([], map[])

  const Empty: Diary := Dict([], map[])

  /** The position of x in s. */
  function Position<T(==)>(s: seq<T>, x: T): (i: nat)
    requires x in s
    ensures i < |s| && s[i] == x
    ensures forall k :: 0 <= k < i ==> s[k] != x
  {
    if s[0] == x then 0 else 1 + Position(s[1..], x)
  }

  /**
    Python's `data[u] = es`: a key already present keeps its position and gets the new
    list, a new key goes last.
  */
  function Assign(d: Diary, u: string, es: seq<Entry>): (r: Diary)
    ensures r.users == if u in d.logs then d.users else d.users + [u]
    ensures r.logs.Keys == d.logs.Keys + {u}
    ensures r.logs[u] == es
    ensures forall v :: v in d.logs && v != u ==> r.logs[v] == d.logs[v]
  {
    Dict(if u in d.logs then d.users else d.users + [u], d.logs[u := es])
  }

  /** The entry built for a message: its date, its text, and empty facts and emotions. */
  function NewEntry(date: string, text: string): (e: Entry)
    ensures e.Keys == {DateKey, SituationKey, FactsKey, EmotionsKey}
    ensures e[DateKey] == date && e[SituationKey] == text
    ensures e[FactsKey] == "" && e[EmotionsKey] == ""
  {
    map[DateKey := date, SituationKey := text, FactsKey := "", EmotionsKey := ""]
  }

  /**
    The diary once entry e of user u is stored: u's list is its old list (empty
    for a new user) with e at the end, a new user becomes the last key, and every
    other key and list is as it was.
  */
  function Recorded(d: Diary, u: string, e: Entry): (r: Diary)
    ensures r.logs.Keys == d.logs.Keys + {u}
    ensures u in d.logs ==> r.users == d.users && r.logs[u] == d.logs[u] + [e]
    ensures u !in d.logs ==> r.users == d.users + [u] && r.logs[u] == [e]
    ensures forall v :: v in d.logs && v != u ==> r.logs[v] == d.logs[v]
  {
    var oldList := if u in d.logs then d.logs[u] else [];
    Dict(if u in d.logs then d.users else d.users + [u], d.logs[u := oldList + [e]])
  }
}
