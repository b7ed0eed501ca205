/**
 * The in-memory roster and draw state of the server: two clans imported from
 * a spreadsheet, the tagged pool built from them, and the last draw's winners.
 */
module Roster {
  import opened Wrappers
  import opened Cells

  /** A clan: its tag and its members, in import order (duplicates are kept). */
  datatype Clan = Clan(tag: Cell, members: seq<Cell>)

  /** A pool entry `{ n, c }`: a member's name and the tag of the clan it came from. */
  datatype Entry = Entry(n: Cell, c: Cell)

  /** The clan value the server starts with and resets to: `{ tag: "", members: [] }`. */
  const EmptyClan: Clan := Clan(Text(""), [])

  /** The draw size used when the request gives no count, or a count of 0. */
  const DefaultDrawCount: int := 20

  /** `members.map(n => ({ n, c: tag }))`. */
  function Tagged(members: seq<Cell>, tag: Cell): (r: seq<Entry>)
    ensures |r| == |members|
    ensures forall e :: e in r <==> e.c == tag && e.n in members
  {
    var r := seq(|members|, i requires 0 <= i < |members| => Entry(members[i], tag));
    assert forall i :: 0 <= i < |members| ==> r[i] == Entry(members[i], tag);
    r
  }

  /** The pool: clan A's members tagged with A's tag, then clan B's tagged with B's tag. */
  function Pool(a: Clan, b: Clan): (p: seq<Entry>)
    ensures |p| == |a.members| + |b.members|
    ensures forall i :: 0 <= i < |a.members| ==> p[i] == Entry(a.members[i], a.tag)
    ensures forall j :: 0 <= j < |b.members| ==> p[|a.members| + j] == Entry(b.members[j], b.tag)
    ensures forall e :: e in p <==> (e.c == a.tag && e.n in a.members) || (e.c == b.tag && e.n in b.members)
  {
    Tagged(a.members, a.tag) + Tagged(b.members, b.tag)
  }

  /** The truthy cells of column `col` of `rows`, in row order. */
  function Column(rows: seq<seq<Cell>>, col: nat): (r: seq<Cell>)
    ensures |r| <= |rows|
    ensures forall k :: 0 <= k < |r| ==> Truthy(r[k])
  {
    if rows == [] then []
    else
      var c := CellAt(rows[0], col);
      (if Truthy(c) then [c] else []) + Column(rows[1..], col)
  }

  /** One more row adds its cell to the column exactly when that cell is truthy. */
  lemma {:induction false} ColumnSnoc(rows: seq<seq<Cell>>, row: seq<Cell>, col: nat)
    ensures Column(rows + [row], col)
         == Column(rows, col) + (if Truthy(CellAt(row, col)) then [CellAt(row, col)] else [])
  {
    if rows == [] {
      assert [row][1..] == [];
    } else {
      assert (rows + [row])[1..] == rows[1..] + [row];
      ColumnSnoc(rows[1..], row, col);
    }
  }

  /** The loop's step: row `i` extends the column collected from rows 1..i-1. */
  lemma ColumnStep(rows: seq<seq<Cell>>, i: nat, col: nat)
    requires 1 <= i < |rows|
    ensures Column(rows[1..i + 1], col)
         == Column(rows[1..i], col) + (if Truthy(CellAt(rows[i], col)) then [CellAt(rows[i], col)] else [])
  {
    assert rows[1..i + 1] == rows[1..i] + [rows[i]];
    ColumnSnoc(rows[1..i], rows[i], col);
  }

  /** A cell is a member of the column exactly when it is truthy and some row holds it there. */
  lemma {:induction false} ColumnMembership(rows: seq<seq<Cell>>, col: nat, c: Cell)
    ensures c in Column(rows, col) <==> Truthy(c) && exists i :: 0 <= i < |rows| && CellAt(rows[i], col) == c
  {
    if rows != [] {
      ColumnMembership(rows[1..], col, c);
      if exists i :: 0 <= i < |rows| && CellAt(rows[i], col) == c {
        var i :| 0 <= i < |rows| && CellAt(rows[i], col) == c;
        if i > 0 {
          assert CellAt(rows[1..][i - 1], col) == c;
        }
      }
      if exists i :: 0 <= i < |rows[1..]| && CellAt(rows[1..][i], col) == c {
        var i :| 0 <= i < |rows[1..]| && CellAt(rows[1..][i], col) == c;
        assert CellAt(rows[i + 1], col) == c;
      }
    }
  }

  /**
   * The draw size the server uses: `Math.max(1, Math.floor(count || 20))`.
   * A missing count and a count of 0 are both falsy and fall back to 20.
   */
  function EffectiveCount(count: Option<int>): (k: int)
    ensures k >= 1
    ensures count.None? || count == Some(0) ==> k == DefaultDrawCount
    ensures count.Some? && count.value < 0 ==> k == 1
    ensures count.Some? && count.value > 0 ==> k == count.value
  {
    var requested := if count.None? || count.value == 0 then DefaultDrawCount else count.value;
    Max(1, requested)
  }

  predicate Distinct(s: seq<nat>)
  {
    forall i, j :: 0 <= i < j < |s| ==> s[i] != s[j]
  }

  predicate InRange(idx: seq<nat>, n: nat)
  {
    forall k :: 0 <= k < |idx| ==> idx[k] < n
  }

  /** `perm` lists every index of a sequence of length `n` exactly once. */
  predicate IsPermutation(perm: seq<nat>, n: nat)
  {
    |perm| == n && InRange(perm, n) && Distinct(perm)
  }

  /** The entries of `pool` at the positions `idx`, in that order. */
  function Select(pool: seq<Entry>, idx: seq<nat>): seq<Entry>
    requires InRange(idx, |pool|)
  {
    seq(|idx|, k requires 0 <= k < |idx| => pool[idx[k]])
  }

  /** `winners` are the entries of `pool` at the distinct positions `picks`. */
  predicate IsSelection(picks: seq<nat>, winners: seq<Entry>, pool: seq<Entry>)
  {
    && |picks| == |winners|
    && InRange(picks, |pool|)
    && Distinct(picks)
    && forall k :: 0 <= k < |picks| ==> winners[k] == pool[picks[k]]
  }

  lemma SelectAppend(pool: seq<Entry>, a: seq<nat>, b: seq<nat>)
    requires InRange(a, |pool|) && InRange(b, |pool|)
    ensures InRange(a + b, |pool|)
    ensures Select(pool, a + b) == Select(pool, a) + Select(pool, b)
  {
  }

  /** Removing the occurrence of `last` from distinct indexes below `last + 1` leaves distinct indexes below `last`. */
  lemma RemoveLast(idx: seq<nat>, p: nat, last: nat)
    requires InRange(idx, last + 1) && Distinct(idx)
    requires p < |idx| && idx[p] == last
    ensures InRange(idx[..p] + idx[p + 1..], last)
    ensures Distinct(idx[..p] + idx[p + 1..])
  {
    var rest := idx[..p] + idx[p + 1..];
    forall k | 0 <= k < |rest| ensures rest[k] < last {
      var k' := if k < p then k else k + 1;
      assert rest[k] == idx[k'];
    }
    forall i, j | 0 <= i < j < |rest| ensures rest[i] != rest[j] {
      var i' := if i < p then i else i + 1;
      var j' := if j < p then j else j + 1;
      assert rest[i] == idx[i'] && rest[j] == idx[j'];
    }
  }

  /** Selecting from a pool through indexes that all lie in its front part. */
  lemma SelectFront(pool: seq<Entry>, idx: seq<nat>, n: nat)
    requires n <= |pool| && InRange(idx, n)
    ensures Select(pool[..n], idx) == Select(pool, idx)
  {
  }

  lemma SelectSplit(pool: seq<Entry>, idx: seq<nat>, p: nat)
    requires InRange(idx, |pool|) && p < |idx|
    ensures multiset(Select(pool, idx))
         == multiset(Select(pool, idx[..p] + idx[p + 1..])) + multiset{pool[idx[p]]}
  {
    var before, after := idx[..p], idx[p + 1..];
    assert idx == before + [idx[p]] + after;
    SelectAppend(pool, before + [idx[p]], after);
    SelectAppend(pool, before, [idx[p]]);
    SelectAppend(pool, before, after);
  }

  /** Picking distinct positions never takes an entry more often than the pool holds it. */
  lemma {:induction false} SelectSubBag(pool: seq<Entry>, idx: seq<nat>)
    requires InRange(idx, |pool|) && Distinct(idx)
    ensures multiset(Select(pool, idx)) <= multiset(pool)
    decreases |pool|
  {
    if pool == [] {
      assert Select(pool, idx) == [];
    } else {
      var last := |pool| - 1;
      var front := pool[..last];
      assert pool == front + [pool[last]];
      if p :| 0 <= p < |idx| && idx[p] == last {
        var rest := idx[..p] + idx[p + 1..];
        RemoveLast(idx, p, last);
        SelectSubBag(front, rest);
        SelectFront(pool, rest, last);
        SelectSplit(pool, idx, p);
      } else {
        forall k | 0 <= k < |idx| ensures idx[k] < last {
        }
        SelectSubBag(front, idx);
        SelectFront(pool, idx, last);
      }
    }
  }

  /** Reordering the pool by a permutation keeps exactly its entries (with their multiplicities). */
  lemma ShufflePermutes(pool: seq<Entry>, perm: seq<nat>)
    requires IsPermutation(perm, |pool|)
    ensures multiset(Select(pool, perm)) == multiset(pool)
  {
    SelectSubBag(pool, perm);
    var s := multiset(Select(pool, perm));
    var m := multiset(pool);
    assert |s| == |m|;
    assert m == s + (m - s);
    assert |m - s| == 0;
  }

  /**
   * The winners of a draw: the reordered pool cut to the effective count.
   * `[...pool].sort(() => 0.5 - Math.random())` is modelled by the permutation `perm`.
   */
  function Winners(pool: seq<Entry>, count: Option<int>, perm: seq<nat>): (w: seq<Entry>)
    requires IsPermutation(perm, |pool|)
    ensures |w| == Min(EffectiveCount(count), |pool|)
    ensures multiset(w) <= multiset(pool)
    ensures IsSelection(perm[..|w|], w, pool)
  {
    var m := Min(EffectiveCount(count), |pool|);
    assert Select(pool, perm)[..m] == Select(pool, perm[..m]);
    SelectSubBag(pool, perm[..m]);
    Select(pool, perm[..m])
  }

  /** The cells collected from the rows after the header are the truthy cells found in that column below it. */
  lemma BodyColumn(rows: seq<seq<Cell>>, col: nat)
    requires rows != []
    ensures forall c :: c in Column(rows[1..], col) <==> Truthy(c) && exists i :: 1 <= i < |rows| && CellAt(rows[i], col) == c
  {
    forall c ensures c in Column(rows[1..], col) <==> Truthy(c) && exists i :: 1 <= i < |rows| && CellAt(rows[i], col) == c {
      ColumnMembership(rows[1..], col, c);
      if exists i :: 1 <= i < |rows| && CellAt(rows[i], col) == c {
        var i :| 1 <= i < |rows| && CellAt(rows[i], col) == c;
        assert CellAt(rows[1..][i - 1], col) == c;
      }
      if exists i :: 0 <= i < |rows[1..]| && CellAt(rows[1..][i], col) == c {
        var i :| 0 <= i < |rows[1..]| && CellAt(rows[1..][i], col) == c;
        assert CellAt(rows[i + 1], col) == c;
      }
    }
  }

  /** The value of the whole record, as `GET /api/state` serialises it. */
  datatype Snapshot = Snapshot(clanA: Clan, clanB: Clan, pool: seq<Entry>, winners: seq<Entry>)

  /** The record after importing `rows` (at least the header row): both clans rebuilt, no winners. */
  function AfterImport(rows: seq<seq<Cell>>): (s: Snapshot)
    requires rows != []
    ensures s.pool == Pool(s.clanA, s.clanB) && s.winners == []
    ensures s.clanA.tag == CellAt(rows[0], 0) && s.clanB.tag == CellAt(rows[0], 1)
    ensures s.clanA.members == Column(rows[1..], 0) && s.clanB.members == Column(rows[1..], 1)
    ensures |s.pool| == |s.clanA.members| + |s.clanB.members| <= 2 * (|rows| - 1)
    ensures forall c :: c in s.clanA.members <==> Truthy(c) && exists i :: 1 <= i < |rows| && CellAt(rows[i], 0) == c
    ensures forall c :: c in s.clanB.members <==> Truthy(c) && exists i :: 1 <= i < |rows| && CellAt(rows[i], 1) == c
  {
    BodyColumn(rows, 0);
    BodyColumn(rows, 1);
    var a := Clan(CellAt(rows[0], 0), Column(rows[1..], 0));
    var b := Clan(CellAt(rows[0], 1), Column(rows[1..], 1));
    Snapshot(a, b, Pool(a, b), [])
  }

  /** The worked example: a header row, then a row for both clans and a row whose second cell is blank. */
  lemma ImportExample()
    ensures var s := AfterImport([[Text("Red"), Text("Blue")], [Text("alice"), Text("bob")], [Text("carol"), Text("")]]);
      && s.clanA == Clan(Text("Red"), [Text("alice"), Text("carol")])
      && s.clanB == Clan(Text("Blue"), [Text("bob")])
      && |s.pool| == 3
  {
    var rows := [[Text("Red"), Text("Blue")], [Text("alice"), Text("bob")], [Text("carol"), Text("")]];
    var body := rows[1..];
    assert body == [] + [rows[1]] + [rows[2]];
    ColumnSnoc([], rows[1], 0);
    ColumnSnoc([] + [rows[1]], rows[2], 0);
    ColumnSnoc([], rows[1], 1);
    ColumnSnoc([] + [rows[1]], rows[2], 1);
    assert Column(body, 0) == [Text("alice"), Text("carol")];
    assert Column(body, 1) == [Text("bob")];
    var s := AfterImport(rows);
    assert s.clanA == Clan(Text("Red"), Column(body, 0));
    assert s.clanB == Clan(Text("Blue"), Column(body, 1));
  }

  /** The record the server starts with, and that clearing the list restores. */
  const InitialSnapshot: Snapshot := Snapshot(EmptyClan, EmptyClan, [], [])

  /** The server's global `state` record. */
  class State {
    var clanA: Clan
    var clanB: Clan
    var pool: seq<Entry>
    var winners: seq<Entry>
    /** The pool positions the current winners were drawn from. */
    ghost var picks: seq<nat>

    /**
     * The record's invariant: the pool is always built from the two clans,
     * and the winners are entries of the pool at distinct positions.
     */
    ghost predicate Valid()
      reads this
    {
      pool == Pool(clanA, clanB) && IsSelection(picks, winners, pool)
    }

    function View(): Snapshot
      reads this
    {
      Snapshot(clanA, clanB, pool, winners)
    }

    constructor ()
      ensures Valid()
      ensures View() == InitialSnapshot
    {
      clanA, clanB := EmptyClan, EmptyClan;
      pool, winners := [], [];
      picks := [];
    }

    /**
     * Replaces both clans from the spreadsheet rows: row 0 holds the tags,
     * later rows add their truthy column 0 and column 1 cells. Returns the
     * pool size, or None when `rows[0][0]` throws (no rows at all), in which
     * case nothing has changed.
     */
    method Import(rows: seq<seq<Cell>>) returns (count: Option<nat>)
      requires Valid()
      modifies this
      ensures Valid()
      ensures rows == [] ==> count == None && View() == old(View()) && picks == old(picks)
      ensures rows != [] ==> View() == AfterImport(rows) && count == Some(|pool|)
    {
      if rows == [] {
        return None;
      }
      clanA := clanA.(tag := CellAt(rows[0], 0));
      clanB := clanB.(tag := CellAt(rows[0], 1));
      clanA := clanA.(members := []);
      clanB := clanB.(members := []);

      var i := 1;
      while i < |rows|
        invariant 1 <= i <= |rows|
        invariant clanA == Clan(CellAt(rows[0], 0), Column(rows[1..i], 0))
        invariant clanB == Clan(CellAt(rows[0], 1), Column(rows[1..i], 1))
      {
        ColumnStep(rows, i, 0);
        ColumnStep(rows, i, 1);
        AddRow(rows[i]);
        i := i + 1;
      }
      assert rows[1..i] == rows[1..];

      pool := Tagged(clanA.members, clanA.tag) + Tagged(clanB.members, clanB.tag);
      winners, picks := [], [];
      count := Some(|pool|);
    }

    /** One pass of the import loop: each clan gets its column's cell of `row` when that cell is truthy. */
    method AddRow(row: seq<Cell>)
      modifies this
      ensures clanA == old(clanA).(members := old(clanA.members)
                                   + if Truthy(CellAt(row, 0)) then [CellAt(row, 0)] else [])
      ensures clanB == old(clanB).(members := old(clanB.members)
                                   + if Truthy(CellAt(row, 1)) then [CellAt(row, 1)] else [])
      ensures pool == old(pool) && winners == old(winners) && picks == old(picks)
    {
      if Truthy(CellAt(row, 0)) {
        clanA := clanA.(members := clanA.members + [CellAt(row, 0)]);
      }
      if Truthy(CellAt(row, 1)) {
        clanB := clanB.(members := clanB.members + [CellAt(row, 1)]);
      }
    }

    /**
     * Draws: the pool reordered by `perm` (the random sort), cut to
     * min(effective count, pool size). Only `winners` changes.
     */
    method Draw(count: Option<int>, perm: seq<nat>) returns (drawn: seq<Entry>)
      requires Valid()
      requires IsPermutation(perm, |pool|)
      modifies this
      ensures Valid()
      ensures clanA == old(clanA) && clanB == old(clanB) && pool == old(pool)
      ensures winners == Winners(pool, count, perm) && drawn == winners
      ensures |winners| == Min(EffectiveCount(count), |pool|)
    {
      var shuffled := Select(pool, perm);
      var m := Min(EffectiveCount(count), |shuffled|);
      winners := shuffled[..m];
      picks := perm[..m];
      assert shuffled[..m] == Select(pool, perm[..m]);
      drawn := winners;
    }

    /** Clears the winners and nothing else. */
    method ClearWinners()
      requires Valid()
      modifies this
      ensures Valid()
      ensures View() == old(View()).(winners := [])
    {
      winners, picks := [], [];
    }

    /** Resets the whole record to its initial value, whatever it held before. */
    method ClearList()
      requires Valid()
      modifies this
      ensures Valid()
      ensures View() == InitialSnapshot
    {
      clanA := EmptyClan;
      clanB := EmptyClan;
      pool := [];
      winners, picks := [], [];
    }
  }
}
