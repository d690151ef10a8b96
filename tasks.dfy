/** The task records of the dashboard and the pure list values its handlers and its view
    compute: `Array.prototype.filter` (deletion, search, statistics), the `map` that replaces
    the entries with one id (toggle, edit), `find`, and the display predicates. */
module Tasks {
  import opened Wrappers
  import opened Text

  /** One task as the dashboard keeps it. Identifiers are `Date.now()` values and the two
      stamps are ISO-8601 strings; both are opaque here. */
  datatype Task = Task(
    id: int,
    author: string,
    text: string,
    completed: bool,
    createdAt: string,
    updatedAt: string)

  // ---------------------------------------------------------------------------------------
  // Subsequences and `filter`

  /** `a` is obtained from `b` by deleting entries, keeping the order of the rest. */
  predicate IsSubsequence<T(==)>(a: seq<T>, b: seq<T>)
    decreases |b|
  {
    a == [] ||
    (b != [] && ((a[0] == b[0] && IsSubsequence(a[1..], b[1..])) || IsSubsequence(a, b[1..])))
  }

  /** A subsequence is never longer than the sequence it is taken from. */
  lemma {:induction false} SubsequenceLength<T>(a: seq<T>, b: seq<T>)
    requires IsSubsequence(a, b)
    ensures |a| <= |b|
  {
    if a != [] {
      if a[0] == b[0] && IsSubsequence(a[1..], b[1..]) {
        SubsequenceLength(a[1..], b[1..]);
      } else {
        SubsequenceLength(a, b[1..]);
      }
    }
  }

  /** `xs.filter(p)`: the entries of `xs` that satisfy `p`, in their original order. */
  function Select<T>(xs: seq<T>, p: T -> bool): (r: seq<T>)
    ensures |r| <= |xs|
    ensures IsSubsequence(r, xs)
    ensures forall x :: x in r ==> x in xs && p(x)
    ensures forall x :: x in xs && p(x) ==> x in r
  {
    if xs == [] then []
    else if p(xs[0]) then [xs[0]] + Select(xs[1..], p)
    else Select(xs[1..], p)
  }

  /** `filter` keeps every occurrence of an entry that satisfies the predicate and none of
      one that does not: the kept multiset is the input's restricted to `p`. */
  lemma {:induction false} SelectMultiplicity<T>(xs: seq<T>, p: T -> bool)
    ensures multiset(Select(xs, p)) <= multiset(xs)
    ensures forall x :: x in multiset(xs) ==>
      multiset(Select(xs, p))[x] == if p(x) then multiset(xs)[x] else 0
  {
    if xs != [] {
      SelectMultiplicity(xs[1..], p);
      assert xs == [xs[0]] + xs[1..];
    }
  }

  /** Filtering with a predicate that holds of every entry gives the sequence back. */
  lemma {:induction false} SelectAll<T>(xs: seq<T>, p: T -> bool)
    requires forall i :: 0 <= i < |xs| ==> p(xs[i])
    ensures Select(xs, p) == xs
  {
    if xs != [] {
      SelectAll(xs[1..], p);
    }
  }

  /** Filtering with no entry satisfying the predicate gives the empty sequence. */
  lemma {:induction false} SelectNone<T>(xs: seq<T>, p: T -> bool)
    requires forall i :: 0 <= i < |xs| ==> !p(xs[i])
    ensures Select(xs, p) == []
  {
    if xs != [] {
      SelectNone(xs[1..], p);
    }
  }

  /** The filter is empty exactly when no entry satisfies the predicate. */
  lemma SelectEmptyIffNone<T>(xs: seq<T>, p: T -> bool)
    ensures Select(xs, p) == [] <==> forall i :: 0 <= i < |xs| ==> !p(xs[i])
  {
    if forall i :: 0 <= i < |xs| ==> !p(xs[i]) {
      SelectNone(xs, p);
    } else {
      var i :| 0 <= i < |xs| && p(xs[i]);
      assert xs[i] in xs;
    }
  }

  /** Predicates that agree on every value filter alike. */
  lemma {:induction false} SelectSame<T>(xs: seq<T>, p: T -> bool, q: T -> bool)
    requires forall x :: p(x) == q(x)
    ensures Select(xs, p) == Select(xs, q)
  {
    if xs != [] {
      SelectSame(xs[1..], p, q);
    }
  }

  /** Filtering twice with the same predicate is filtering once. */
  lemma {:induction false} SelectIdempotent<T>(xs: seq<T>, p: T -> bool)
    ensures Select(Select(xs, p), p) == Select(xs, p)
  {
    var r := Select(xs, p);
    forall i | 0 <= i < |r| ensures p(r[i]) {
      assert r[i] in r;
    }
    SelectAll(r, p);
  }

  /** The entries kept by `p` and those kept by its negation add up to the whole sequence. */
  lemma {:induction false} SelectComplement<T>(xs: seq<T>, p: T -> bool, q: T -> bool)
    requires forall x :: q(x) == !p(x)
    ensures |Select(xs, p)| + |Select(xs, q)| == |xs|
  {
    if xs != [] {
      SelectComplement(xs[1..], p, q);
    }
  }

  /** A weaker predicate keeps at least as many entries. */
  lemma {:induction false} SelectMonotone<T>(xs: seq<T>, p: T -> bool, q: T -> bool)
    requires forall x :: p(x) ==> q(x)
    ensures |Select(xs, p)| <= |Select(xs, q)|
  {
    if xs != [] {
      SelectMonotone(xs[1..], p, q);
    }
  }

  // ---------------------------------------------------------------------------------------
  // Identifiers

  /** No two entries share an identifier. Ids are `Date.now()` values, so nothing in the
      dashboard guarantees this; the lemmas that need it say so. */
  predicate UniqueIds(ts: seq<Task>)
  {
    forall i, j :: 0 <= i < j < |ts| ==> ts[i].id != ts[j].id
  }

  predicate HasId(ts: seq<Task>, id: int)
  {
    exists i :: 0 <= i < |ts| && ts[i].id == id
  }

  /** `tasks.find(t => t.id === id)`: the first entry with that id, if any. */
  function Find(ts: seq<Task>, id: int): (r: Option<Task>)
    ensures r.None? <==> !HasId(ts, id)
    ensures r.Some? ==> r.value.id == id
    ensures r.Some? ==>
      exists k :: 0 <= k < |ts| && ts[k] == r.value && forall j :: 0 <= j < k ==> ts[j].id != id
  {
    if ts == [] then None
    else if ts[0].id == id then Some(ts[0])
    else
      var r := Find(ts[1..], id);
      assert HasId(ts, id) ==> HasId(ts[1..], id) by {
        if HasId(ts, id) {
          var i :| 0 <= i < |ts| && ts[i].id == id;
          assert ts[1..][i - 1].id == id;
        }
      }
      assert r.Some? ==> exists k :: 0 <= k < |ts| && ts[k] == r.value && forall j :: 0 <= j < k ==> ts[j].id != id by {
        if r.Some? {
          var k :| 0 <= k < |ts[1..]| && ts[1..][k] == r.value && forall j :: 0 <= j < k ==> ts[1..][j].id != id;
          assert ts[k + 1] == r.value;
          assert forall j :: 0 <= j < k + 1 ==> ts[j].id != id by {
            forall j | 0 <= j < k + 1 ensures ts[j].id != id {
              if j > 0 { assert ts[j] == ts[1..][j - 1]; }
            }
          }
        }
      }
      r
  }

  /** With unique ids, `find` returns THE entry with that id. */
  lemma FindUnique(ts: seq<Task>, id: int, i: int)
    requires UniqueIds(ts)
    requires 0 <= i < |ts| && ts[i].id == id
    ensures Find(ts, id) == Some(ts[i])
  {
    assert HasId(ts, id);
    var r := Find(ts, id);
    var k :| 0 <= k < |ts| && ts[k] == r.value && forall j :: 0 <= j < k ==> ts[j].id != id;
    assert ts[k].id == id;
    assert !(i < k);
    assert !(k < i) by {
      assert forall j :: 0 <= j < i ==> ts[j].id != ts[i].id;
    }
  }

  // ---------------------------------------------------------------------------------------
  // Replacing and removing by id

  /** `prev.map(t => t.id === id ? u : t)`: every entry with that id becomes `u`, every other
      entry stays where it is. */
  function ReplaceById(ts: seq<Task>, id: int, u: Task): (r: seq<Task>)
    ensures |r| == |ts|
    ensures forall i :: 0 <= i < |ts| && ts[i].id == id ==> r[i] == u
    ensures forall i :: 0 <= i < |ts| && ts[i].id != id ==> r[i] == ts[i]
  {
    if ts == [] then []
    else [if ts[0].id == id then u else ts[0]] + ReplaceById(ts[1..], id, u)
  }

  /** Replacing an id that no entry carries changes nothing. */
  lemma ReplaceAbsent(ts: seq<Task>, id: int, u: Task)
    requires !HasId(ts, id)
    ensures ReplaceById(ts, id, u) == ts
  {
    var r := ReplaceById(ts, id, u);
    assert forall i :: 0 <= i < |ts| ==> r[i] == ts[i];
  }

  /** Replacing by a record that keeps the id keeps the ids unique. */
  lemma ReplaceKeepsUnique(ts: seq<Task>, id: int, u: Task)
    requires UniqueIds(ts) && u.id == id
    ensures UniqueIds(ReplaceById(ts, id, u))
  {
    var r := ReplaceById(ts, id, u);
    assert forall i :: 0 <= i < |ts| ==> r[i].id == ts[i].id;
  }

  /** Prepending a task keeps the ids unique exactly when its id is new to the list. */
  lemma PrependKeepsUnique(ts: seq<Task>, t: Task)
    requires UniqueIds(ts)
    ensures UniqueIds([t] + ts) <==> !HasId(ts, t.id)
  {
    var r := [t] + ts;
    if HasId(ts, t.id) {
      var i :| 0 <= i < |ts| && ts[i].id == t.id;
      assert r[0].id == r[i + 1].id;
    } else {
      forall i, j | 0 <= i < j < |r| ensures r[i].id != r[j].id {
        if i == 0 {
          assert r[j] == ts[j - 1];
        } else {
          assert r[i] == ts[i - 1] && r[j] == ts[j - 1];
        }
      }
    }
  }

  /** The filter predicate of `deleteTask`: keep the entries whose id differs. */
  function OtherId(id: int): Task -> bool
  {
    (t: Task) => t.id != id
  }

  /** `prev.filter(task => task.id !== id)`: afterwards no entry has the id, the others are
      all kept, in their old order, and exactly the entries with the id are gone. */
  function RemoveById(ts: seq<Task>, id: int): (r: seq<Task>)
    ensures IsSubsequence(r, ts)
    ensures !HasId(r, id)
    ensures forall t :: t in ts && t.id != id ==> t in r
    ensures multiset(r) <= multiset(ts)
    ensures forall t :: t in multiset(ts) ==> multiset(r)[t] == if t.id != id then multiset(ts)[t] else 0
    ensures |r| + |Select(ts, (t: Task) => t.id == id)| == |ts|
  {
    var r := Select(ts, OtherId(id));
    SelectMultiplicity(ts, OtherId(id));
    forall i | 0 <= i < |r| ensures r[i].id != id {
      assert r[i] in r;
    }
    SelectComplement(ts, (t: Task) => t.id == id, OtherId(id));
    r
  }

  /** Deleting the same id twice gives the list of deleting it once. */
  lemma RemoveIdempotent(ts: seq<Task>, id: int)
    ensures RemoveById(RemoveById(ts, id), id) == RemoveById(ts, id)
  {
    SelectIdempotent(ts, OtherId(id));
  }

  /** Deleting an id that no entry carries changes nothing. */
  lemma RemoveAbsent(ts: seq<Task>, id: int)
    requires !HasId(ts, id)
    ensures RemoveById(ts, id) == ts
  {
    SelectAll(ts, OtherId(id));
  }

  /** Filtering keeps unique ids unique. */
  lemma {:induction false} SelectKeepsUnique(ts: seq<Task>, p: Task -> bool)
    requires UniqueIds(ts)
    ensures UniqueIds(Select(ts, p))
  {
    if ts != [] {
      var rest := Select(ts[1..], p);
      SelectKeepsUnique(ts[1..], p);
      if p(ts[0]) {
        var r := [ts[0]] + rest;
        forall i, j | 0 <= i < j < |r| ensures r[i].id != r[j].id {
          if i == 0 {
            assert r[j] == rest[j - 1];
            assert r[j] in ts[1..];
            var k :| 0 <= k < |ts[1..]| && ts[1..][k] == r[j];
            assert ts[k + 1] == r[j];
          }
        }
      }
    }
  }

  // ---------------------------------------------------------------------------------------
  // The records the handlers build

  /** The record `handleAddTask` sends and prepends. */
  function NewTask(id: int, username: string, input: string, createdAt: string, updatedAt: string): (t: Task)
    ensures t.author == username && !t.completed
    ensures t.text == [] <==> IsBlank(input)
    ensures t.text != [] ==> !IsWhitespace(t.text[0]) && !IsWhitespace(t.text[|t.text| - 1])
  {
    Task(id, username, Trim(input), false, createdAt, updatedAt)
  }

  /** `{...task, completed: !task.completed, updatedAt: stamp}`. */
  function Toggled(t: Task, stamp: string): (r: Task)
    ensures r.completed == !t.completed && r.updatedAt == stamp
    ensures r.(completed := t.completed, updatedAt := t.updatedAt) == t
  {
    t.(completed := !t.completed, updatedAt := stamp)
  }

  /** `{...task, text: editText.trim(), updatedAt: stamp}`. */
  function Edited(t: Task, input: string, stamp: string): (r: Task)
    ensures r.text == Trim(input) && r.updatedAt == stamp
    ensures r.(text := t.text, updatedAt := t.updatedAt) == t
  {
    t.(text := Trim(input), updatedAt := stamp)
  }

  /** Toggling a record twice restores its completion flag; only the stamp moves on. */
  lemma ToggleTwice(t: Task, s1: string, s2: string)
    ensures Toggled(Toggled(t, s1), s2) == t.(updatedAt := s2)
  {
  }

  /** The list `toggleTask` installs when `find` found the id: length and order are kept,
      every entry with another id is left alone, and every entry with the id becomes the
      toggled copy of the first such entry, so it has that entry's flag negated and the new
      stamp. */
  function AfterToggle(ts: seq<Task>, id: int, stamp: string): (r: seq<Task>)
    requires HasId(ts, id)
    ensures |r| == |ts|
    ensures forall i :: 0 <= i < |ts| && ts[i].id != id ==> r[i] == ts[i]
    ensures forall i :: 0 <= i < |ts| && ts[i].id == id ==>
      r[i].completed == !Find(ts, id).value.completed && r[i].updatedAt == stamp && r[i].id == id
  {
    ReplaceById(ts, id, Toggled(Find(ts, id).value, stamp))
  }

  /** With unique ids the single entry with the id is replaced by its own toggled copy: its
      own flag is negated. */
  lemma ToggleList(ts: seq<Task>, id: int, stamp: string)
    requires UniqueIds(ts) && HasId(ts, id)
    ensures var r := AfterToggle(ts, id, stamp);
      forall i :: 0 <= i < |ts| && ts[i].id == id ==> r[i] == Toggled(ts[i], stamp)
  {
    forall i | 0 <= i < |ts| && ts[i].id == id ensures Find(ts, id).value == ts[i] {
      FindUnique(ts, id, i);
    }
  }

  /** Two successful toggles of the same id: with unique ids the list is the original one,
      with only the stamp of that entry moved on. */
  lemma ToggleListTwice(ts: seq<Task>, id: int, s1: string, s2: string)
    requires UniqueIds(ts) && HasId(ts, id)
    ensures HasId(AfterToggle(ts, id, s1), id)
    ensures var r := AfterToggle(AfterToggle(ts, id, s1), id, s2);
      |r| == |ts| &&
      forall i :: 0 <= i < |ts| ==> r[i] == if ts[i].id == id then ts[i].(updatedAt := s2) else ts[i]
  {
    var k :| 0 <= k < |ts| && ts[k].id == id;
    FindUnique(ts, id, k);
    var ts1 := ReplaceById(ts, id, Toggled(ts[k], s1));
    assert ts1 == AfterToggle(ts, id, s1);
    assert ts1[k] == Toggled(ts[k], s1);
    ReplaceKeepsUnique(ts, id, Toggled(ts[k], s1));
    FindUnique(ts1, id, k);
    var ts2 := ReplaceById(ts1, id, Toggled(Toggled(ts[k], s1), s2));
    assert ts2 == AfterToggle(ts1, id, s2);
    forall i | 0 <= i < |ts|
      ensures ts2[i] == if ts[i].id == id then ts[i].(updatedAt := s2) else ts[i]
    {
      if ts[i].id == id {
        FindUnique(ts, id, i);
      }
    }
  }

  /** With unique ids, replacing the entry at `k` by `u` changes the number of entries that
      satisfy `p` by what `p` says of the old and the new record. */
  lemma {:induction false} ReplaceUniqueCount(ts: seq<Task>, k: int, u: Task, p: Task -> bool)
    requires UniqueIds(ts) && 0 <= k < |ts| && u.id == ts[k].id
    ensures |Select(ReplaceById(ts, ts[k].id, u), p)| + (if p(ts[k]) then 1 else 0)
         == |Select(ts, p)| + (if p(u) then 1 else 0)
  {
    var id := ts[k].id;
    var r := ReplaceById(ts, id, u);
    assert r[1..] == ReplaceById(ts[1..], id, u);
    if k == 0 {
      assert !HasId(ts[1..], id) by {
        assert forall j :: 0 < j < |ts| ==> ts[j].id != ts[0].id;
      }
      ReplaceAbsent(ts[1..], id, u);
    } else {
      assert ts[1..][k - 1] == ts[k];
      assert ts[0].id != id;
      ReplaceUniqueCount(ts[1..], k - 1, u, p);
    }
  }

  /** With unique ids a successful toggle moves exactly one task between the completed and
      the pending counters and leaves the total and the "mine" counter alone. */
  lemma ToggleCounts(ts: seq<Task>, id: int, stamp: string, username: string)
    requires UniqueIds(ts) && HasId(ts, id)
    ensures var t := Find(ts, id).value; var r := AfterToggle(ts, id, stamp);
      |r| == |ts| &&
      CompletedCount(r) == (if t.completed then CompletedCount(ts) - 1 else CompletedCount(ts) + 1) &&
      PendingCount(r) == (if t.completed then PendingCount(ts) + 1 else PendingCount(ts) - 1) &&
      MineCount(r, username) == MineCount(ts, username)
  {
    var k :| 0 <= k < |ts| && ts[k].id == id;
    FindUnique(ts, id, k);
    var u := Toggled(ts[k], stamp);
    ReplaceUniqueCount(ts, k, u, IsCompleted);
    ReplaceUniqueCount(ts, k, u, IsPending);
    ReplaceUniqueCount(ts, k, u, AuthoredBy(username));
  }

  // ---------------------------------------------------------------------------------------
  // Search filter

  /** The search predicate: the lower-cased author or the lower-cased text includes the
      lower-cased term. */
  predicate Matches(t: Task, term: string)
    ensures term == [] ==> Matches(t, term)
    ensures Matches(t, term) ==> |term| <= |t.author| || |term| <= |t.text|
  {
    Contains(Lower(t.author), Lower(term)) || Contains(Lower(t.text), Lower(term))
  }

  function MatchesTerm(term: string): Task -> bool
  {
    (t: Task) => Matches(t, term)
  }

  /** `filteredTasks`: the entries matching the search term, in list order. */
  function FilteredTasks(ts: seq<Task>, term: string): (r: seq<Task>)
    ensures IsSubsequence(r, ts) && |r| <= |ts|
    ensures forall t :: t in r ==> t in ts && Matches(t, term)
    ensures forall t :: t in ts && Matches(t, term) ==> t in r
    ensures multiset(r) <= multiset(ts)
    ensures forall t :: t in multiset(ts) ==> multiset(r)[t] == if Matches(t, term) then multiset(ts)[t] else 0
  {
    SelectMultiplicity(ts, MatchesTerm(term));
    Select(ts, MatchesTerm(term))
  }

  /** An empty search term shows the whole list, in order. */
  lemma FilterEmptyTerm(ts: seq<Task>)
    ensures FilteredTasks(ts, "") == ts
  {
    forall i | 0 <= i < |ts| ensures MatchesTerm("")(ts[i]) {
    }
    SelectAll(ts, MatchesTerm(""));
  }

  /** The search ignores the case of ASCII letters in the term. */
  lemma FilterCaseInsensitive(ts: seq<Task>, t1: string, t2: string)
    requires Lower(t1) == Lower(t2)
    ensures FilteredTasks(ts, t1) == FilteredTasks(ts, t2)
  {
    SelectSame(ts, MatchesTerm(t1), MatchesTerm(t2));
  }

  /** In particular, searching for the lower-cased term finds what the term itself finds. */
  lemma FilterLowerTerm(ts: seq<Task>, term: string)
    ensures FilteredTasks(ts, Lower(term)) == FilteredTasks(ts, term)
  {
    LowerIdempotent(term);
    FilterCaseInsensitive(ts, Lower(term), term);
  }

  // ---------------------------------------------------------------------------------------
  // Statistics and display predicates

  predicate IsCompleted(t: Task) { t.completed }

  predicate IsPending(t: Task) { !t.completed }

  function AuthoredBy(username: string): Task -> bool
  {
    (t: Task) => t.author == username
  }

  /** The counters of the statistics panel: total, completed, pending and "mine". */
  function CompletedCount(ts: seq<Task>): (n: nat)
    ensures n <= |ts|
    ensures n == 0 <==> forall i :: 0 <= i < |ts| ==> !ts[i].completed
  {
    SelectEmptyIffNone(ts, IsCompleted);
    |Select(ts, IsCompleted)|
  }

  function PendingCount(ts: seq<Task>): (n: nat)
    ensures n <= |ts|
    ensures n == 0 <==> forall i :: 0 <= i < |ts| ==> ts[i].completed
  {
    SelectEmptyIffNone(ts, IsPending);
    |Select(ts, IsPending)|
  }

  function MineCount(ts: seq<Task>, username: string): (n: nat)
    ensures n <= |ts|
    ensures n == 0 <==> forall i :: 0 <= i < |ts| ==> ts[i].author != username
  {
    SelectEmptyIffNone(ts, AuthoredBy(username));
    |Select(ts, AuthoredBy(username))|
  }

  /** Completed plus pending is the total, and none of the counters exceeds it. */
  lemma CountsAddUp(ts: seq<Task>, username: string)
    ensures CompletedCount(ts) + PendingCount(ts) == |ts|
    ensures CompletedCount(ts) <= |ts| && PendingCount(ts) <= |ts| && MineCount(ts, username) <= |ts|
  {
    SelectComplement(ts, IsCompleted, IsPending);
  }

  /** A task is shown in edit mode when the edited id is its id. */
  predicate InEditMode(t: Task, editing: Option<int>)
  {
    editing == Some(t.id)
  }

  /** The toggle, edit and delete buttons appear for a task only when the user wrote it and
      it is not the task being edited. */
  predicate ShowsActions(t: Task, username: string, editing: Option<int>)
  {
    t.author == username && !InEditMode(t, editing)
  }

  function ActionsFor(username: string, editing: Option<int>): Task -> bool
  {
    (t: Task) => ShowsActions(t, username, editing)
  }

  function EditModeFor(editing: Option<int>): Task -> bool
  {
    (t: Task) => InEditMode(t, editing)
  }

  /** The buttons appear on at most "mine" rows, never on someone else's task and never on
      the row in edit mode. */
  lemma ActionsOnlyOnOwnTasks(ts: seq<Task>, username: string, editing: Option<int>)
    ensures |Select(ts, ActionsFor(username, editing))| <= MineCount(ts, username)
    ensures forall t :: t in Select(ts, ActionsFor(username, editing)) ==>
      t.author == username && !InEditMode(t, editing)
  {
    SelectMonotone(ts, ActionsFor(username, editing), AuthoredBy(username));
  }

  /** With unique ids at most one row of the list is in edit mode. */
  lemma {:induction false} AtMostOneInEditMode(ts: seq<Task>, editing: Option<int>)
    requires UniqueIds(ts)
    ensures |Select(ts, EditModeFor(editing))| <= 1
  {
    if ts != [] {
      AtMostOneInEditMode(ts[1..], editing);
      if InEditMode(ts[0], editing) {
        forall i | 0 <= i < |ts[1..]| ensures !EditModeFor(editing)(ts[1..][i]) {
          assert ts[1..][i] == ts[i + 1];
        }
        SelectNone(ts[1..], EditModeFor(editing));
      }
    }
  }
}
