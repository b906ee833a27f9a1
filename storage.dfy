/** `MemStorage`: five insertion-ordered tables keyed by record id, the
    operations that change them, and the user, quiz-result and saved-item
    queries. Fresh ids and the current time are arguments here: the caller
    supplies an id not yet in the table where the store would draw a
    random UUID, and an instant `now` where it would read the clock. */
module Storage {
  import opened Base
  import opened Seqs
  import opened Tables
  import opened Schema

  /** Every entry of the table is filed under its record's own id. */
  ghost predicate FiledById<T>(t: Table<T>, idOf: T -> string) {
    forall i :: 0 <= i < |t| ==> idOf(t[i].value) == t[i].key
  }

  function QuizResultId(r: QuizResult): string { r.id }
  function CollegeId(c: College): string { c.id }
  function TimelineId(t: Timeline): string { t.id }
  function SavedItemId(s: SavedItem): string { s.id }

  /** The (userId, itemType, itemId) triple `deleteSavedItem` looks for. */
  datatype ItemRef = ItemRef(userId: string, itemType: string, itemId: string)

  /** The entry's item is the one `k` names; a stored null owner matches no
      string. */
  predicate MatchesItem(k: ItemRef, e: Entry<SavedItem>) {
    e.value.userId == Some(k.userId) && e.value.itemType == k.itemType && e.value.itemId == k.itemId
  }

  predicate HasUsername(username: string, u: User) { u.username == username }
  predicate HasEmail(email: string, u: User) { u.email == email }
  predicate QuizResultOf(userId: string, r: QuizResult) { r.userId == Some(userId) }
  predicate SavedItemOf(userId: string, s: SavedItem) { s.userId == Some(userId) }

  /** `getUserByUsername`: the first user, in table order, with that username. */
  function UserByUsername(t: Table<User>, username: string): (r: Option<User>)
    ensures r.Some? ==> r.value in Values(t) && r.value.username == username
    ensures r.None? <==> forall u :: u in Values(t) ==> u.username != username
    ensures r.Some? ==> exists i :: 0 <= i < |t| && t[i].value == r.value
                                  && forall j :: 0 <= j < i ==> t[j].value.username != username
  {
    Find(Values(t), username, HasUsername)
  }

  /** `getUserByEmail`: the first user, in table order, with that email. */
  function UserByEmail(t: Table<User>, email: string): (r: Option<User>)
    ensures r.Some? ==> r.value in Values(t) && r.value.email == email
    ensures r.None? <==> forall u :: u in Values(t) ==> u.email != email
    ensures r.Some? ==> exists i :: 0 <= i < |t| && t[i].value == r.value
                                  && forall j :: 0 <= j < i ==> t[j].value.email != email
  {
    Find(Values(t), email, HasEmail)
  }

  /** `getQuizResultsByUser`: the results owned by `userId`, in table order. */
  function QuizResultsByUser(t: Table<QuizResult>, userId: string): (r: seq<QuizResult>)
    ensures forall x :: x in r <==> x in Values(t) && x.userId == Some(userId)
  {
    Filter(Values(t), userId, QuizResultOf)
  }

  /** `getSavedItemsByUser`: the items owned by `userId`, in table order. */
  function SavedItemsByUser(t: Table<SavedItem>, userId: string): (r: seq<SavedItem>)
    ensures forall x :: x in r <==> x in Values(t) && x.userId == Some(userId)
  {
    Filter(Values(t), userId, SavedItemOf)
  }

  /** The position `deleteSavedItem`'s `find` stops at, if any. */
  function FirstMatch(t: Table<SavedItem>, k: ItemRef): (r: Option<nat>)
    ensures r.Some? ==> r.value < |t| && MatchesItem(k, t[r.value])
    ensures r.Some? ==> forall j :: 0 <= j < r.value ==> !MatchesItem(k, t[j])
    ensures r.None? <==> forall j :: 0 <= j < |t| ==> !MatchesItem(k, t[j])
  {
    FirstIndex(t, k, MatchesItem)
  }

  /** The saved-items table after `deleteSavedItem(k)`. */
  function RemoveFirstMatch(t: Table<SavedItem>, k: ItemRef): (r: Table<SavedItem>)
    ensures FirstMatch(t, k).None? ==> r == t
    ensures FirstMatch(t, k).Some? ==> t[FirstMatch(t, k).value] !in r && |r| < |t|
    ensures forall e :: e in r ==> e in t
  {
    match FirstMatch(t, k)
    case None => t
    case Some(i) => Delete(t, t[i].key)
  }

  /** How many entries match `k`. */
  function MatchCount(t: Table<SavedItem>, k: ItemRef): nat {
    |Filter(t, k, MatchesItem)|
  }

  /** Removing the first match takes out that one entry and keeps the rest
      in order; with no match the table is unchanged. */
  lemma RemoveFirstMatchSpec(t: Table<SavedItem>, k: ItemRef)
    requires KeysUnique(t)
    ensures FirstMatch(t, k).None? ==> RemoveFirstMatch(t, k) == t
    ensures FirstMatch(t, k).Some? ==>
              var i := FirstMatch(t, k).value;
              RemoveFirstMatch(t, k) == t[..i] + t[i + 1..]
  {
    if FirstMatch(t, k).Some? {
      DeleteAt(t, FirstMatch(t, k).value);
    }
  }

  /** Deleting removes one matching entry, however many duplicates the table
      holds; with no match there is nothing to remove. */
  lemma RemoveOneMatch(t: Table<SavedItem>, k: ItemRef)
    requires KeysUnique(t)
    ensures FirstMatch(t, k).Some? ==> MatchCount(RemoveFirstMatch(t, k), k) == MatchCount(t, k) - 1
    ensures FirstMatch(t, k).None? ==> MatchCount(t, k) == 0
  {
    RemoveFirstMatchSpec(t, k);
    match FirstMatch(t, k)
    case None =>
      if Filter(t, k, MatchesItem) != [] {
        assert Filter(t, k, MatchesItem)[0] in Filter(t, k, MatchesItem);
      }
    case Some(i) =>
      var before, after := t[..i], t[i + 1..];
      assert t == (before + [t[i]]) + after;
      FilterAppend(before + [t[i]], after, k, MatchesItem);
      FilterAppend(before, [t[i]], k, MatchesItem);
      assert Filter([t[i]], k, MatchesItem) == [t[i]];
      FilterAppend(before, after, k, MatchesItem);
  }

  /** Saving an item adds one more match for its triple even when the table
      already holds equal items: nothing stops duplicates. */
  lemma {:induction false} SavedItemDuplicatesCoexist(t: Table<SavedItem>, id: string, item: SavedItem, k: ItemRef)
    ensures MatchCount(t + [Entry(id, item)], k) ==
              MatchCount(t, k) + (if MatchesItem(k, Entry(id, item)) then 1 else 0)
  {
    FilterAppend(t, [Entry(id, item)], k, MatchesItem);
  }

  /** Appending an entry leaves an earlier first match where it was. */
  lemma FirstMatchAppend(t: Table<SavedItem>, e: Entry<SavedItem>, k: ItemRef)
    ensures FirstMatch(t + [e], k) ==
              if FirstMatch(t, k).Some? then FirstMatch(t, k)
              else if MatchesItem(k, e) then Some(|t|) else None
  {
    var t' := t + [e];
    assert forall j :: 0 <= j < |t| ==> t'[j] == t[j];
    assert t'[|t|] == e;
  }

  /** Cutting position `i` of `t` out of `t + [e]` is cutting it out of `t`
      and then appending `e`. */
  lemma CutAfterAppend<T>(t: seq<T>, e: T, i: nat)
    requires i < |t|
    ensures (t + [e])[..i] + (t + [e])[i + 1..] == (t[..i] + t[i + 1..]) + [e]
  {
    assert (t + [e])[..i] == t[..i];
    assert (t + [e])[i + 1..] == t[i + 1..] + [e];
  }

  /** Saving an item and then deleting its triple succeeds and leaves as
      many matches as before the save. */
  lemma SaveThenDelete(t: Table<SavedItem>, id: string, item: SavedItem, k: ItemRef)
    requires KeysUnique(t) && id !in Keys(t)
    requires MatchesItem(k, Entry(id, item))
    ensures FirstMatch(t + [Entry(id, item)], k).Some?
    ensures MatchCount(RemoveFirstMatch(t + [Entry(id, item)], k), k) == MatchCount(t, k)
  {
    PutFreshKeepsUnique(t, id, item);
    FirstMatchAppend(t, Entry(id, item), k);
    RemoveOneMatch(t + [Entry(id, item)], k);
    SavedItemDuplicatesCoexist(t, id, item, k);
  }

  /** When an equal item was saved earlier, deleting removes that earlier
      one and the new item stays. */
  lemma SaveThenDeleteRemovesEarlier(t: Table<SavedItem>, id: string, item: SavedItem, k: ItemRef)
    requires KeysUnique(t) && id !in Keys(t)
    requires FirstMatch(t, k).Some?
    ensures RemoveFirstMatch(t + [Entry(id, item)], k) == RemoveFirstMatch(t, k) + [Entry(id, item)]
  {
    var e := Entry(id, item);
    var t' := t + [e];
    var i := FirstMatch(t, k).value;
    PutFreshKeepsUnique(t, id, item);
    FirstMatchAppend(t, e, k);
    RemoveFirstMatchSpec(t, k);
    RemoveFirstMatchSpec(t', k);
    CutAfterAppend(t, e, i);
  }

  /** A record stored with a null owner is listed for no user. */
  lemma NullOwnerNeverListed(q: Table<QuizResult>, s: Table<SavedItem>, r: QuizResult, item: SavedItem, userId: string)
    requires r.userId.None? && item.userId.None?
    ensures r !in QuizResultsByUser(q, userId)
    ensures item !in SavedItemsByUser(s, userId)
  {
  }

  /** A newly filed quiz result is listed last for its owner and for no
      other user. */
  lemma {:induction false} QuizResultsAfterAppend(t: Table<QuizResult>, id: string, r: QuizResult, userId: string)
    ensures QuizResultsByUser(t + [Entry(id, r)], userId) ==
              QuizResultsByUser(t, userId) + (if r.userId == Some(userId) then [r] else [])
  {
    ValuesAppend(t, [Entry(id, r)]);
    assert Values([Entry(id, r)]) == [r];
    FilterAppend(Values(t), [r], userId, QuizResultOf);
  }

  /** A newly filed saved item is listed last for its owner and for no
      other user. */
  lemma {:induction false} SavedItemsAfterAppend(t: Table<SavedItem>, id: string, item: SavedItem, userId: string)
    ensures SavedItemsByUser(t + [Entry(id, item)], userId) ==
              SavedItemsByUser(t, userId) + (if item.userId == Some(userId) then [item] else [])
  {
    ValuesAppend(t, [Entry(id, item)]);
    assert Values([Entry(id, item)]) == [item];
    FilterAppend(Values(t), [item], userId, SavedItemOf);
  }

  /** Dropping one entry keeps the remaining keys unique and each entry
      under its own id. */
  lemma RemoveAtKeepsInvariant<T>(t: Table<T>, i: nat, idOf: T -> string)
    requires KeysUnique(t) && FiledById(t, idOf) && i < |t|
    ensures KeysUnique(t[..i] + t[i + 1..]) && FiledById(t[..i] + t[i + 1..], idOf)
  {
    var r := t[..i] + t[i + 1..];
    assert forall j :: 0 <= j < |r| ==> r[j] == if j < i then t[j] else t[j + 1];
  }

  /** Filing a new record under a fresh key appends it and keeps the keys
      unique. */
  lemma PutFreshKeepsUnique<T>(t: Table<T>, k: string, v: T)
    requires KeysUnique(t) && k !in Keys(t)
    ensures Put(t, k, v) == t + [Entry(k, v)]
    ensures KeysUnique(Put(t, k, v))
    ensures Keys(Put(t, k, v)) == Keys(t) + {k}
  {
    PutFresh(t, k, v);
    var r := t + [Entry(k, v)];
    assert forall j :: 0 <= j < |t| ==> r[j] == t[j];
    assert r[|t|].key == k;
  }

  class MemStorage {
    var users: Table<User>
    var quizResults: Table<QuizResult>
    var colleges: Table<College>
    var timelines: Table<Timeline>
    var savedItems: Table<SavedItem>

    /** One entry per key in every table, and every record but a user filed
        under its own id (`updateUser` may give a user a different id). */
    ghost predicate Valid()
      reads this
    {
      && KeysUnique(users)
      && KeysUnique(quizResults) && FiledById(quizResults, QuizResultId)
      && KeysUnique(colleges) && FiledById(colleges, CollegeId)
      && KeysUnique(timelines) && FiledById(timelines, TimelineId)
      && KeysUnique(savedItems) && FiledById(savedItems, SavedItemId)
    }

    /** An empty store (the sample colleges and timelines are not part of
        this model). */
    constructor()
      ensures Valid()
      ensures users == [] && quizResults == [] && colleges == [] && timelines == [] && savedItems == []
    {
      users := [];
      quizResults := [];
      colleges := [];
      timelines := [];
      savedItems := [];
    }

    /** `createUser`: files the new user under `id`; a falsy profile is
        stored as null. */
    method CreateUser(u: InsertUser, id: string, now: int) returns (user: User)
      requires Valid() && id !in Keys(users)
      modifies this
      ensures Valid()
      ensures user == User(id, u.username, u.email, u.password, JsonOr(u.profile, JNull), now)
      ensures users == old(users) + [Entry(id, user)]
      ensures Keys(users) == old(Keys(users)) + {id}
      ensures quizResults == old(quizResults) && colleges == old(colleges)
      ensures timelines == old(timelines) && savedItems == old(savedItems)
    {
      user := User(id, u.username, u.email, u.password, JsonOr(u.profile, JNull), now);
      PutFreshKeepsUnique(users, id, user);
      users := Put(users, id, user);
    }

    /** `updateUser`: with no user under `id`, nothing changes; otherwise the
        patch's present fields override the stored ones and the result is
        stored under the same key, in the same position. */
    method UpdateUser(id: string, patch: UserPatch) returns (r: Option<User>)
      requires Valid()
      modifies this
      ensures Valid()
      ensures r.None? <==> id !in Keys(old(users))
      ensures r.None? ==> users == old(users)
      ensures r.Some? ==> exists i :: 0 <= i < |old(users)| && old(users)[i].key == id
                                       && r.value == MergeUser(old(users)[i].value, patch)
                                       && users == old(users)[i := Entry(id, r.value)]
      ensures quizResults == old(quizResults) && colleges == old(colleges)
      ensures timelines == old(timelines) && savedItems == old(savedItems)
    {
      var current := Get(users, id);
      if current.None? {
        return None;
      }
      ghost var i :| 0 <= i < |users| && users[i] == Entry(id, current.value);
      var updated := MergeUser(current.value, patch);
      PutPresent(users, i, updated);
      PutKeepsUnique(users, id, updated);
      users := Put(users, id, updated);
      r := Some(updated);
    }

    /** `createQuizResult`: files the result under `id`; a falsy owner is
        stored as null. */
    method CreateQuizResult(q: InsertQuizResult, id: string, now: int) returns (result: QuizResult)
      requires Valid() && id !in Keys(quizResults)
      modifies this
      ensures Valid()
      ensures result == QuizResult(id, StringOrNull(q.userId), q.answers, q.results, now)
      ensures quizResults == old(quizResults) + [Entry(id, result)]
      ensures users == old(users) && colleges == old(colleges)
      ensures timelines == old(timelines) && savedItems == old(savedItems)
    {
      result := QuizResult(id, StringOrNull(q.userId), q.answers, q.results, now);
      PutFreshKeepsUnique(quizResults, id, result);
      quizResults := Put(quizResults, id, result);
    }

    /** `createCollege`: files an active college under `id`; falsy
        facilities become `[]` and falsy cutoffs `{}`. */
    method CreateCollege(c: InsertCollege, id: string) returns (college: College)
      requires Valid() && id !in Keys(colleges)
      modifies this
      ensures Valid()
      ensures college == College(id, c.name, c.location, c.state, c.kind, c.streams,
                                 JsonOr(c.facilities, JArray([])), JsonOr(c.cutoffs, JObject([])), true)
      ensures colleges == old(colleges) + [Entry(id, college)]
      ensures users == old(users) && quizResults == old(quizResults)
      ensures timelines == old(timelines) && savedItems == old(savedItems)
    {
      college := College(id, c.name, c.location, c.state, c.kind, c.streams,
                         JsonOr(c.facilities, JArray([])), JsonOr(c.cutoffs, JObject([])), true);
      PutFreshKeepsUnique(colleges, id, college);
      colleges := Put(colleges, id, college);
    }

    /** `createTimeline`: files an active timeline under `id`; falsy streams
        become `[]` and a falsy description null. */
    method CreateTimeline(t: InsertTimeline, id: string) returns (timeline: Timeline)
      requires Valid() && id !in Keys(timelines)
      modifies this
      ensures Valid()
      ensures timeline == Timeline(id, t.title, StringOrNull(t.description), t.kind, t.deadline,
                                   JsonOr(t.streams, JArray([])), true)
      ensures timelines == old(timelines) + [Entry(id, timeline)]
      ensures users == old(users) && quizResults == old(quizResults)
      ensures colleges == old(colleges) && savedItems == old(savedItems)
    {
      timeline := Timeline(id, t.title, StringOrNull(t.description), t.kind, t.deadline,
                           JsonOr(t.streams, JArray([])), true);
      PutFreshKeepsUnique(timelines, id, timeline);
      timelines := Put(timelines, id, timeline);
    }

    /** `createSavedItem`: files the item under `id` without looking for an
        equal item already saved; a falsy owner is stored as null. */
    method CreateSavedItem(s: InsertSavedItem, id: string, now: int) returns (item: SavedItem)
      requires Valid() && id !in Keys(savedItems)
      modifies this
      ensures Valid()
      ensures item == SavedItem(id, StringOrNull(s.userId), s.itemType, s.itemId, now)
      ensures savedItems == old(savedItems) + [Entry(id, item)]
      ensures users == old(users) && quizResults == old(quizResults)
      ensures colleges == old(colleges) && timelines == old(timelines)
    {
      item := SavedItem(id, StringOrNull(s.userId), s.itemType, s.itemId, now);
      PutFreshKeepsUnique(savedItems, id, item);
      savedItems := Put(savedItems, id, item);
    }

    /** `deleteSavedItem`: removes the first entry, in table order, whose
        item matches all three fields, and reports whether there was one. */
    method DeleteSavedItem(userId: string, itemType: string, itemId: string) returns (deleted: bool)
      requires Valid()
      modifies this
      ensures Valid()
      ensures deleted <==> exists j :: 0 <= j < |old(savedItems)| && MatchesItem(ItemRef(userId, itemType, itemId), old(savedItems)[j])
      ensures !deleted ==> savedItems == old(savedItems)
      ensures deleted ==> exists i :: 0 <= i < |old(savedItems)|
                                      && MatchesItem(ItemRef(userId, itemType, itemId), old(savedItems)[i])
                                      && (forall j :: 0 <= j < i ==> !MatchesItem(ItemRef(userId, itemType, itemId), old(savedItems)[j]))
                                      && savedItems == old(savedItems)[..i] + old(savedItems)[i + 1..]
      ensures savedItems == RemoveFirstMatch(old(savedItems), ItemRef(userId, itemType, itemId))
      ensures users == old(users) && quizResults == old(quizResults)
      ensures colleges == old(colleges) && timelines == old(timelines)
    {
      var k := ItemRef(userId, itemType, itemId);
      var found := FirstMatch(savedItems, k);
      if found.None? {
        return false;
      }
      var i := found.value;
      DeleteAt(savedItems, i);
      RemoveAtKeepsInvariant(savedItems, i, SavedItemId);
      savedItems := Delete(savedItems, savedItems[i].key);
      deleted := true;
    }
  }
}
