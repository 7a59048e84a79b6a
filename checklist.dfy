/** The page's state and the decisions it derives from it (index.js): the `backups`
    table and the `selectedItems` map, the save action that records one shared
    timestamp for every selected item, and what each item row shows. */
module Checklist {
  import opened Common
  import opened Text
  import opened DateText
  import opened Catalog

  /** The most entries a list keeps after a save. */
  const MaxHistory: nat := 10

  /** An item is overdue once more than this many days have passed. */
  const OverdueAfterDays: nat := 7

  // ---------------------------------------------------------------------------
  // One list

  /** handleSave's update of one item's list: `[timestamp, ...list.slice(0, 9)]`.
      The new entry goes first and at most nine older entries stay behind it. */
  function Record(timestamp: string, history: seq<string>): (h: seq<string>)
    ensures |h| == Min(|history| + 1, MaxHistory) && |h| <= MaxHistory
    ensures h[0] == timestamp
    ensures h[1..] <= history
  {
    [timestamp] + history[..Min(|history|, MaxHistory - 1)]
  }

  /** A list after one save per element of `newestFirst`, the latest save first. */
  function RecordAll(newestFirst: seq<string>, history: seq<string>): seq<string>
  {
    if newestFirst == [] then history
    else Record(newestFirst[0], RecordAll(newestFirst[1..], history))
  }

  /** However many saves happen, a list that started within the bound holds exactly the
      ten most recent timestamps, newest first. */
  lemma {:induction false} RecordAllKeepsNewest(newestFirst: seq<string>, history: seq<string>)
    requires |history| <= MaxHistory
    ensures RecordAll(newestFirst, history)
         == (newestFirst + history)[..Min(|newestFirst| + |history|, MaxHistory)]
  {
    if newestFirst != [] {
      var rest := newestFirst[1..];
      RecordAllKeepsNewest(rest, history);
      var all := newestFirst + history;
      assert all == [newestFirst[0]] + (rest + history);
      var prev := RecordAll(rest, history);
      assert prev == (rest + history)[..Min(|rest| + |history|, MaxHistory)];
      assert Record(newestFirst[0], prev)
          == [newestFirst[0]] + (rest + history)[..Min(|prev|, MaxHistory - 1)];
    }
  }

  // ---------------------------------------------------------------------------
  // What an item row shows

  const Never: string := "Nunca"

  /** getLastBackup: the newest entry, or "Nunca" for an empty list. */
  function LastBackup(history: seq<string>): (s: string)
    ensures history != [] ==> s == history[0]
    ensures history == [] ==> s == Never
  {
    if |history| > 0 then history[0] else Never
  }

  /** getDaysSince: none for an empty list, otherwise the whole days between now and the
      date of the newest entry. `ageOf` stands for the clock arithmetic on that date. */
  function DaysSince(history: seq<string>, ageOf: string -> nat): (d: Option<nat>)
    ensures d.None? <==> history == []
    ensures d.Some? ==> d.value == ageOf(DatePart(history[0]))
  {
    if |history| > 0 then Some(ageOf(DatePart(history[0]))) else None
  }

  /** `daysSince !== null && daysSince > 7`. */
  predicate IsOverdue(daysSince: Option<nat>)
  {
    daysSince.Some? && daysSince.value > OverdueAfterDays
  }

  /** The overdue boundary: a week is not late, eight days is, and lateness only grows. */
  lemma OverdueBoundary(m: nat, n: nat)
    ensures !IsOverdue(None) && !IsOverdue(Some(7)) && IsOverdue(Some(8))
    ensures IsOverdue(Some(m)) && m <= n ==> IsOverdue(Some(n))
  {
  }

  datatype Badge = Badge(style: string, text: string)

  /** The badge of an item: none without a backup; "Hoy" on day zero, otherwise
      "Hace N días"; styled as a warning when overdue. */
  function BadgeFor(daysSince: Option<nat>): (b: Option<Badge>)
    ensures b.None? <==> daysSince.None?
    ensures b.Some? ==> (b.value.text == "Hoy" <==> daysSince.value == 0)
    ensures b.Some? ==> (b.value.style == "warning" <==> IsOverdue(daysSince))
    ensures b.Some? ==> (b.value.style == "success" <==> !IsOverdue(daysSince))
    ensures b.Some? && daysSince.value != 0 ==> b.value.text == "Hace " + NatToString(daysSince.value) + " días"
  {
    match daysSince
    case None => None
    case Some(n) =>
      var style := if IsOverdue(daysSince) then "warning" else "success";
      var text := if n == 0 then "Hoy" else "Hace " + NatToString(n) + " días";
      assert n != 0 ==> |text| > 3;
      Some(Badge(style, text))
  }

  /** Different day counts show different badge texts. */
  lemma BadgeTextsDiffer(m: nat, n: nat)
    requires m != n
    ensures BadgeFor(Some(m)).value.text != BadgeFor(Some(n)).value.text
  {
    if m != 0 && n != 0 {
      var tm, tn := NatToString(m), NatToString(n);
      NatToStringInjective(m, n);
      var a, b := "Hace " + tm + " días", "Hace " + tn + " días";
      assert |a| == |tm| + 10 && |b| == |tn| + 10;
      assert a[5..5 + |tm|] == tm && b[5..5 + |tn|] == tn;
    }
  }

  /** The history section: present only for more than one entry, and then listing every
      entry after the newest, with the total count on its toggle. */
  datatype HistorySection = HistorySection(copies: nat, entries: seq<string>)

  function HistoryFor(history: seq<string>): (h: Option<HistorySection>)
    ensures h.Some? <==> |history| > 1
    ensures h.Some? ==> h.value.copies == |history| && [history[0]] + h.value.entries == history
  {
    if |history| > 1 then Some(HistorySection(|history|, history[1..])) else None
  }

  datatype ItemView = ItemView(overdue: bool, lastBackup: string, badge: Option<Badge>,
                               history: Option<HistorySection>)

  /** The decisions createBackupItem makes for one item: the row is marked overdue exactly
      when its newest backup is more than a week old, and then its badge is the warning
      one; it has a badge exactly when it has a backup, and a history section exactly when
      it has more than one. */
  function CreateBackupItem(history: seq<string>, ageOf: string -> nat): (v: ItemView)
    ensures v.overdue <==> history != [] && ageOf(DatePart(history[0])) > OverdueAfterDays
    ensures v.lastBackup == (if history == [] then Never else history[0])
    ensures v.badge.None? <==> history == []
    ensures v.overdue ==> v.badge.Some? && v.badge.value.style == "warning"
    ensures !v.overdue && v.badge.Some? ==> v.badge.value.style == "success"
    ensures v.history.Some? <==> |history| > 1
  {
    var daysSince := DaysSince(history, ageOf);
    ItemView(IsOverdue(daysSince), LastBackup(history), BadgeFor(daysSince), HistoryFor(history))
  }

  /** Right after a save of an item whose timestamp is today: the row shows that
      timestamp, reads "Hoy", is not overdue, and its history lists the kept older entries. */
  lemma ViewAfterRecord(timestamp: string, history: seq<string>, ageOf: string -> nat)
    requires ageOf(DatePart(timestamp)) == 0
    ensures var v := CreateBackupItem(Record(timestamp, history), ageOf);
      && v.lastBackup == timestamp
      && !v.overdue
      && v.badge == Some(Badge("success", "Hoy"))
      && (v.history.Some? <==> history != [])
      && (v.history.Some? ==> v.history.value.entries == history[..Min(|history|, MaxHistory - 1)])
  {
    var h := Record(timestamp, history);
    assert h[1..] == history[..Min(|history|, MaxHistory - 1)];
  }

  // ---------------------------------------------------------------------------
  // The save button

  /** `Object.values(selectedItems).some(v => v)`. */
  predicate AnySelected(selection: map<string, bool>)
  {
    true in selection.Values
  }

  datatype SaveButton = SaveButton(disabled: bool, caption: string)

  /** updateSaveButton: enabled exactly when some item is checked. */
  function SaveButtonFor(selection: map<string, bool>): (b: SaveButton)
    ensures !b.disabled <==> exists item :: item in selection && selection[item]
  {
    if AnySelected(selection) then SaveButton(false, "✓ Guardar Copias Seleccionadas")
    else SaveButton(true, "Selecciona elementos para guardar")
  }

  // ---------------------------------------------------------------------------
  // The save action on the whole table

  /** An item that handleSave updates: checked, and resolved to category `c`. */
  predicate Chosen(t: Table, selection: map<string, bool>, c: string, item: string)
  {
    item in selection && selection[item] && CategoryOf(t, item) == Some(c)
  }

  /** The table after handleSave records `timestamp` for the checked items. */
  function AfterSave(t: Table, selection: map<string, bool>, timestamp: string): Table
  {
    map c | c in t :: map i | i in t[c] ::
      if Chosen(t, selection, c, i) then Record(timestamp, t[c][i]) else t[c][i]
  }

  /** Lists stay within the bound, on every present key. */
  predicate Bounded(t: Table)
  {
    forall c, i :: c in t && i in t[c] ==> |t[c][i]| <= MaxHistory
  }

  /** Saving keeps both levels of keys and the bound on every list. */
  lemma SaveKeepsShape(t: Table, selection: map<string, bool>, timestamp: string)
    requires Shaped(t) && Bounded(t)
    ensures Shaped(AfterSave(t, selection, timestamp)) && Bounded(AfterSave(t, selection, timestamp))
  {
    var u := AfterSave(t, selection, timestamp);
    assert u.Keys == t.Keys;
    assert forall c :: c in u ==> u[c].Keys == t[c].Keys;
  }

  /** A checked item that the table holds is found in its own category and gets the
      timestamp recorded: newest first, at most ten entries (see Record). */
  lemma SaveChecked(t: Table, selection: map<string, bool>, timestamp: string, c: string, i: string)
    requires Shaped(t) && Holds(t, c, i)
    requires i in selection && selection[i]
    ensures AfterSave(t, selection, timestamp)[c][i] == Record(timestamp, t[c][i])
  {
    ShapedKeys(t, c, i);
    CategoryOfShaped(t, i);
  }

  /** An item that is not checked, or checked as false, keeps its list. */
  lemma SaveUnchecked(t: Table, selection: map<string, bool>, timestamp: string, c: string, i: string)
    requires Shaped(t) && Holds(t, c, i)
    requires i !in selection || !selection[i]
    ensures AfterSave(t, selection, timestamp)[c][i] == t[c][i]
  {
    ShapedKeys(t, c, i);
  }

  /** A checked name outside the catalog changes nothing. */
  lemma SaveUnknownItem(t: Table, item: string, timestamp: string)
    requires Shaped(t)
    requires forall c :: !InCatalog(c, item)
    ensures AfterSave(t, map[item := true], timestamp) == t
  {
    CategoryOfShaped(t, item);
    var u := AfterSave(t, map[item := true], timestamp);
    assert u.Keys == t.Keys;
    forall c | c in t ensures u[c] == t[c] {
      forall i | i in t[c] ensures u[c][i] == t[c][i] {
        assert !Chosen(t, map[item := true], c, i);
      }
    }
  }

  /** Part way through handleSave's loop: the items in `done` have been handled. */
  ghost predicate SaveProgress(b: Table, start: Table, selection: map<string, bool>,
                               done: set<string>, timestamp: string)
  {
    && b.Keys == start.Keys
    && (forall c :: c in b ==> b[c].Keys == start[c].Keys)
    && forall c, i :: c in b && i in b[c] ==>
         b[c][i] == if i in done && Chosen(start, selection, c, i)
                    then Record(timestamp, start[c][i]) else start[c][i]
  }

  lemma SaveStepChosen(b: Table, start: Table, selection: map<string, bool>, done: set<string>,
                       item: string, c: string, timestamp: string)
    requires SaveProgress(b, start, selection, done, timestamp)
    requires item !in done && Chosen(start, selection, c, item) && Holds(b, c, item)
    ensures SaveProgress(b[c := b[c][item := Record(timestamp, b[c][item])]],
                         start, selection, done + {item}, timestamp)
  {
  }

  lemma SaveStepSkipped(b: Table, start: Table, selection: map<string, bool>, done: set<string>,
                        item: string, timestamp: string)
    requires SaveProgress(b, start, selection, done, timestamp)
    requires forall c :: !Chosen(start, selection, c, item)
    ensures SaveProgress(b, start, selection, done + {item}, timestamp)
  {
  }

  lemma SaveFinished(b: Table, start: Table, selection: map<string, bool>, timestamp: string)
    requires SaveProgress(b, start, selection, selection.Keys, timestamp)
    ensures b == AfterSave(start, selection, timestamp)
  {
    var expected := AfterSave(start, selection, timestamp);
    assert b.Keys == expected.Keys;
    forall c | c in b ensures b[c] == expected[c] {
      assert b[c].Keys == expected[c].Keys;
      forall i | i in b[c] ensures b[c][i] == expected[c][i] {
        assert Chosen(start, selection, c, i) ==> i in selection.Keys;
      }
    }
  }

  // ---------------------------------------------------------------------------
  // The page state

  class Page {
    var backups: Table
    var selectedItems: map<string, bool>

    /** The catalog's keys are fixed and no list is longer than ten. */
    ghost predicate Valid()
      reads this
    {
      Shaped(backups) && Bounded(backups)
    }

    /** The page before anything is loaded: the catalog with empty lists, nothing checked. */
    constructor ()
      ensures Valid()
      ensures backups == Skeleton() && selectedItems == map[]
    {
      backups := Skeleton();
      selectedItems := map[];
    }

    /** The checkbox handler: `selectedItems[item] = checked`. */
    method Select(item: string, checked: bool)
      requires Valid()
      modifies this
      ensures Valid()
      ensures backups == old(backups)
      ensures selectedItems == old(selectedItems)[item := checked]
      ensures checked ==> !SaveButtonFor(selectedItems).disabled
    {
      selectedItems := selectedItems[item := checked];
      assert item in selectedItems && selectedItems[item] == checked;
    }

    /** handleSave: records `timestamp` on every checked item that some category holds,
        then clears the selection, which disables the save button. The table is updated
        whether or not the later write to storage succeeds. */
    method HandleSave(timestamp: string)
      requires Valid()
      modifies this
      ensures Valid()
      ensures backups == AfterSave(old(backups), old(selectedItems), timestamp)
      ensures selectedItems == map[] && SaveButtonFor(selectedItems).disabled
    {
      ghost var start := backups;
      ghost var selection := selectedItems;
      var pending := selectedItems.Keys;
      while pending != {}
        invariant pending <= selection.Keys
        invariant selectedItems == selection
        invariant SaveProgress(backups, start, selection, selection.Keys - pending, timestamp)
        decreases pending
      {
        var item :| item in pending;
        ghost var done := selection.Keys - pending;
        if selectedItems[item] {
          CategoryOfSameKeys(backups, start, item);
          var category := CategoryOf(backups, item);
          if category.Some? {
            var c := category.value;
            ghost var before := backups;
            backups := backups[c := backups[c][item := Record(timestamp, backups[c][item])]];
            SaveStepChosen(before, start, selection, done, item, c, timestamp);
          } else {
            SaveStepSkipped(backups, start, selection, done, item, timestamp);
          }
        } else {
          SaveStepSkipped(backups, start, selection, done, item, timestamp);
        }
        assert selection.Keys - (pending - {item}) == done + {item};
        pending := pending - {item};
      }
      assert selection.Keys - pending == selection.Keys;
      SaveFinished(backups, start, selection, timestamp);
      SaveKeepsShape(start, selection, timestamp);
      selectedItems := map[];
    }
  }
}
