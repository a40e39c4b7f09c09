/**
  * components/ChatHistory.tsx: the history screen orders a copy of the sessions newest
  * first and labels each row by title, then preview, then "...".
  *
  * `Array.prototype.sort` is stable, so sessions with equal `lastUpdated` keep their stored
  * order; SortNewestFirst is a stable insertion sort with the same comparator. Sequences are
  * values, so sorting "a copy" leaves the caller's list as it was by construction.
  */
module ChatHistory {
  import opened Wrappers
  import opened Strings
  import opened Types

  predicate NewestFirst(s: seq<ChatSession>) {
    forall i, j :: 0 <= i < j < |s| ==> s[i].lastUpdated >= s[j].lastUpdated
  }

  /** Places `x`, which came before every element of `sorted` in the input, ahead of the
      first element that is not newer than it. */
  function Insert(x: ChatSession, sorted: seq<ChatSession>): seq<ChatSession> {
    if sorted == [] || x.lastUpdated >= sorted[0].lastUpdated then [x] + sorted
    else [sorted[0]] + Insert(x, sorted[1..])
  }

  /** `[...sessions].sort((a, b) => b.lastUpdated - a.lastUpdated)`. */
  function SortNewestFirst(sessions: seq<ChatSession>): seq<ChatSession> {
    if sessions == [] then [] else Insert(sessions[0], SortNewestFirst(sessions[1..]))
  }

  /** Prepending a session that is not older than any element keeps the order. */
  lemma ConsNewestFirst(h: ChatSession, r: seq<ChatSession>)
    requires NewestFirst(r)
    requires forall k :: 0 <= k < |r| ==> r[k].lastUpdated <= h.lastUpdated
    ensures NewestFirst([h] + r)
  {
    var s := [h] + r;
    forall i, j | 0 <= i < j < |s| ensures s[i].lastUpdated >= s[j].lastUpdated {
      assert s[j] == r[j - 1];
      if i > 0 { assert s[i] == r[i - 1]; }
    }
  }

  /** Inserting never produces a session newer than the bound both inputs respect. */
  lemma {:induction false} InsertBound(x: ChatSession, sorted: seq<ChatSession>, b: int)
    requires x.lastUpdated <= b
    requires forall k :: 0 <= k < |sorted| ==> sorted[k].lastUpdated <= b
    ensures forall k :: 0 <= k < |Insert(x, sorted)| ==> Insert(x, sorted)[k].lastUpdated <= b
  {
    if sorted == [] || x.lastUpdated >= sorted[0].lastUpdated {
      var r := Insert(x, sorted);
      assert forall k :: 1 <= k < |r| ==> r[k] == sorted[k - 1];
    } else {
      var rest := sorted[1..];
      InsertBound(x, rest, b);
      var r := Insert(x, sorted);
      assert forall k :: 1 <= k < |r| ==> r[k] == Insert(x, rest)[k - 1];
    }
  }

  lemma {:induction false} InsertSorted(x: ChatSession, sorted: seq<ChatSession>)
    requires NewestFirst(sorted)
    ensures NewestFirst(Insert(x, sorted))
  {
    if sorted == [] || x.lastUpdated >= sorted[0].lastUpdated {
      ConsNewestFirst(x, sorted);
    } else {
      var h, rest := sorted[0], sorted[1..];
      InsertSorted(x, rest);
      InsertBound(x, rest, h.lastUpdated);
      ConsNewestFirst(h, Insert(x, rest));
    }
  }

  lemma {:induction false} InsertContents(x: ChatSession, sorted: seq<ChatSession>)
    ensures multiset(Insert(x, sorted)) == multiset(sorted) + multiset{x}
    ensures |Insert(x, sorted)| == |sorted| + 1
  {
    if sorted == [] || x.lastUpdated >= sorted[0].lastUpdated {
    } else {
      InsertContents(x, sorted[1..]);
      assert sorted == [sorted[0]] + sorted[1..];
    }
  }

  /** Inserting into a newest-first list keeps it newest first and adds exactly `x`; the new
      head is `x` unless the old head is strictly newer. */
  lemma InsertSpec(x: ChatSession, sorted: seq<ChatSession>)
    requires NewestFirst(sorted)
    ensures NewestFirst(Insert(x, sorted))
    ensures multiset(Insert(x, sorted)) == multiset(sorted) + multiset{x}
    ensures |Insert(x, sorted)| == |sorted| + 1
    ensures Insert(x, sorted)[0] == if sorted == [] || x.lastUpdated >= sorted[0].lastUpdated then x else sorted[0]
  {
    InsertSorted(x, sorted);
    InsertContents(x, sorted);
  }

  /** The displayed order is a permutation of the sessions, newest first. */
  lemma {:induction false} SortNewestFirstSpec(sessions: seq<ChatSession>)
    ensures NewestFirst(SortNewestFirst(sessions))
    ensures multiset(SortNewestFirst(sessions)) == multiset(sessions)
    ensures |SortNewestFirst(sessions)| == |sessions|
  {
    if sessions != [] {
      var rest := sessions[1..];
      var t := SortNewestFirst(rest);
      SortNewestFirstSpec(rest);
      InsertSorted(sessions[0], t);
      InsertContents(sessions[0], t);
      assert SortNewestFirst(sessions) == Insert(sessions[0], t);
      assert sessions == [sessions[0]] + rest;
    }
  }

  /** Index of the newest session, the earliest one in stored order among equals. */
  function FirstMaxIndex(s: seq<ChatSession>): (i: nat)
    requires s != []
    ensures i < |s|
    ensures forall j :: 0 <= j < |s| ==> s[j].lastUpdated <= s[i].lastUpdated
    ensures forall j :: 0 <= j < i ==> s[j].lastUpdated < s[i].lastUpdated
  {
    if |s| == 1 then 0
    else
      var k := FirstMaxIndex(s[1..]);
      if s[0].lastUpdated >= s[1 + k].lastUpdated then 0 else 1 + k
  }

  /** The first session shown is the newest one, and among several equally new ones the one
      stored first. */
  lemma {:induction false} SortHead(s: seq<ChatSession>)
    requires s != []
    ensures SortNewestFirst(s)[0] == s[FirstMaxIndex(s)]
  {
    var rest := s[1..];
    if rest == [] {
      assert SortNewestFirst(rest) == [];
    } else {
      SortHead(rest);
      SortNewestFirstSpec(rest);
      InsertSpec(s[0], SortNewestFirst(rest));
    }
  }

  /** The text of a history row: `session.title || session.preview || "..."`. */
  function RowLabel(s: ChatSession): string {
    Or(s.title, Or(Some(s.preview), "..."))
  }

  /** The label is never empty; it is the title when there is a non-empty one, otherwise the
      preview when that is non-empty, otherwise "...". */
  lemma RowLabelSpec(s: ChatSession)
    ensures RowLabel(s) != ""
    ensures s.title.Some? && s.title.value != "" ==> RowLabel(s) == s.title.value
    ensures (s.title.None? || s.title.value == "") && s.preview != "" ==> RowLabel(s) == s.preview
    ensures (s.title.None? || s.title.value == "") && s.preview == "" ==> RowLabel(s) == "..."
  {
  }

  /** One rendered row: its caption, what a tap selects and what the delete button deletes. */
  datatype Row = Row(caption: string, onSelect: ChatSession, onDelete: string)

  datatype HistoryView = EmptyHistory | Rows(rows: seq<Row>)

  function ToRow(s: ChatSession): Row {
    Row(RowLabel(s), s, s.id)
  }

  /** The history screen for a list of sessions. */
  function View(sessions: seq<ChatSession>): HistoryView {
    var sorted := SortNewestFirst(sessions);
    if |sorted| == 0 then EmptyHistory
    else Rows(seq(|sorted|, i requires 0 <= i < |sorted| => ToRow(sorted[i])))
  }

  /** The empty view appears exactly when there are no sessions; otherwise there is one row
      per session, newest first, each selecting its own session and deleting its own id. */
  lemma ViewSpec(sessions: seq<ChatSession>)
    ensures View(sessions).EmptyHistory? <==> sessions == []
    ensures View(sessions).Rows? ==>
              var rows := View(sessions).rows;
              && |rows| == |sessions|
              && multiset(seq(|rows|, i requires 0 <= i < |rows| => rows[i].onSelect)) == multiset(sessions)
              && (forall i :: 0 <= i < |rows| ==> rows[i].onDelete == rows[i].onSelect.id)
              && (forall i :: 0 <= i < |rows| ==> rows[i].caption == RowLabel(rows[i].onSelect))
              && (forall i, j :: 0 <= i < j < |rows| ==> rows[i].onSelect.lastUpdated >= rows[j].onSelect.lastUpdated)
  {
    SortNewestFirstSpec(sessions);
    var sorted := SortNewestFirst(sessions);
    if sessions != [] {
      RowsFor(sorted);
    }
  }

  /** The rows for a list show its sessions in its order, each deleting its own id and
      captioned with its label. */
  lemma RowsFor(sorted: seq<ChatSession>)
    ensures var rows := seq(|sorted|, i requires 0 <= i < |sorted| => ToRow(sorted[i]));
            && |rows| == |sorted|
            && seq(|rows|, i requires 0 <= i < |rows| => rows[i].onSelect) == sorted
            && (forall i :: 0 <= i < |rows| ==> rows[i].onSelect == sorted[i])
            && (forall i :: 0 <= i < |rows| ==> rows[i].onDelete == rows[i].onSelect.id)
            && (forall i :: 0 <= i < |rows| ==> rows[i].caption == RowLabel(rows[i].onSelect))
  {
  }
}
