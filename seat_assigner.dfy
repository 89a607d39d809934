/**
 * The greedy seat assigner: an occupancy grid (true = occupied) and the assignment of the best
 * free seat, preferring columns 0, 2, 3, 5 and the window column `cols - 1` row by row, then
 * any free seat in row-major order.
 */
module Seats {

  /** A seat as (row, column); (-1, -1) reports a full grid. */
  type Seat = (int, int)

  const NoSeat: Seat := (-1, -1)

  /** At least one row, every row as long as the first, and room for column 5. */
  ghost predicate Grid(m: seq<seq<bool>>)
  {
    |m| >= 1 && |m[0]| >= 6 && forall r :: 0 <= r < |m| ==> |m[r]| == |m[0]|
  }

  /** The column of preference `j` (0 to 4) in a row of `cols` seats: the aisles 0, 2, 3, 5, then the window. */
  function PrefCol(cols: int, j: int): int
  {
    if j == 0 then 0 else if j == 1 then 2 else if j == 2 then 3 else if j == 3 then 5 else cols - 1
  }

  /** Preference `j` of row `r` names a free seat. */
  ghost predicate FreePref(m: seq<seq<bool>>, r: int, j: int)
  {
    0 <= r < |m| && 0 <= j < 5 && 0 <= PrefCol(|m[0]|, j) < |m[r]| && !m[r][PrefCol(|m[0]|, j)]
  }

  /** Preference `i` of row `r` comes no later than preference `j` of row `r2`. */
  predicate PrefNoLater(r: int, i: int, r2: int, j: int)
  {
    r < r2 || (r == r2 && i <= j)
  }

  /** Every seat of the grid is occupied. */
  ghost predicate Full(m: seq<seq<bool>>)
  {
    forall r, c :: 0 <= r < |m| && 0 <= c < |m[r]| ==> m[r][c]
  }

  /** Every seat of the row is occupied. */
  ghost predicate RowFull(row: seq<bool>)
  {
    forall c :: 0 <= c < |row| ==> row[c]
  }

  /** The preference that names column `c` first: the inverse of `PrefCol` on the preferred columns. */
  function PrefIndex(cols: int, c: int): int
  {
    if c == 0 then 0 else if c == 2 then 1 else if c == 3 then 2 else if c == 5 then 3 else 4
  }

  /** `s` is a seat of the grid and is free. */
  ghost predicate FreeSeat(m: seq<seq<bool>>, s: Seat)
  {
    0 <= s.0 < |m| && 0 <= s.1 < |m[s.0]| && !m[s.0][s.1]
  }

  /** The candidate list with `s` appended when it is free: one conditional `push_back` of the scan. */
  function Push(list: seq<Seat>, occupied: bool, s: Seat): seq<Seat>
  {
    if occupied then list else list + [s]
  }

  /**
   * The candidate list after the scan of row `r`: its free preferred seats appended in
   * preference order; a free window seat in column 5 is appended twice.
   */
  function AddRowPrefs(list: seq<Seat>, m: seq<seq<bool>>, r: int, cols: int): seq<Seat>
    requires Grid(m) && 0 <= r < |m| && cols == |m[0]|
  {
    var l0 := Push(list, m[r][0], (r, 0));
    var l1 := Push(l0, m[r][2], (r, 2));
    var l2 := Push(l1, m[r][3], (r, 3));
    var l3 := Push(l2, m[r][5], (r, 5));
    Push(l3, m[r][cols - 1], (r, cols - 1))
  }

  /** The candidate list after scanning the first `n` rows. */
  function Preferences(m: seq<seq<bool>>, n: int, cols: int): seq<Seat>
    requires Grid(m) && 0 <= n <= |m| && cols == |m[0]|
  {
    if n == 0 then [] else AddRowPrefs(Preferences(m, n - 1, cols), m, n - 1, cols)
  }

  /** The first free seat of `row` at or after column `c`, or `|row|` when there is none. */
  function FirstFreeIn(row: seq<bool>, c: int): (k: int)
    requires 0 <= c <= |row|
    ensures c <= k <= |row| && (k < |row| ==> !row[k])
    ensures forall i :: c <= i < k ==> row[i]
    decreases |row| - c
  {
    if c == |row| then |row| else if !row[c] then c else FirstFreeIn(row, c + 1)
  }

  /** The first row at or after `r` with a free seat, or `|m|` when there is none. */
  function FirstFreeRow(m: seq<seq<bool>>, r: int): (k: int)
    requires 0 <= r <= |m|
    ensures r <= k <= |m| && (k < |m| ==> FirstFreeIn(m[k], 0) < |m[k]|)
    ensures forall i :: r <= i < k ==> RowFull(m[i])
    decreases |m| - r
  {
    if r == |m| then |m|
    else if FirstFreeIn(m[r], 0) < |m[r]| then r
    else FirstFreeRow(m, r + 1)
  }

  /**
   * The seat the assigner gives: the first candidate when some preferred seat is free,
   * otherwise the first free seat in row-major order, otherwise (-1, -1).
   */
  function BestSeat(m: seq<seq<bool>>): (s: Seat)
    requires Grid(m)
    ensures s == NoSeat || FreeSeat(m, s)
  {
    var p := Preferences(m, |m|, |m[0]|);
    PreferencesHead(m, |m|);
    if p != [] then p[0] else FallbackSeat(m)
  }

  /** The first free seat in row-major order, or (-1, -1) when the grid is full. */
  function FallbackSeat(m: seq<seq<bool>>): Seat
    requires Grid(m)
  {
    var r := FirstFreeRow(m, 0);
    if r < |m| then (r, FirstFreeIn(m[r], 0)) else NoSeat
  }

  /** The grid after taking `s`; taking (-1, -1) changes nothing. */
  function Occupy(m: seq<seq<bool>>, s: Seat): seq<seq<bool>>
    requires s == NoSeat || (0 <= s.0 < |m| && 0 <= s.1 < |m[s.0]|)
  {
    if s == NoSeat then m else m[s.0 := m[s.0][s.1 := true]]
  }

  /** `s` is the free preferred seat of row `r` that comes first in preference order. */
  ghost predicate RowFirst(m: seq<seq<bool>>, r: int, s: Seat)
    requires |m| >= 1
  {
    var i := PrefIndex(|m[0]|, s.1);
    s.0 == r && s.1 == PrefCol(|m[0]|, i) && FreePref(m, r, i) && forall j :: 0 <= j < i ==> !FreePref(m, r, j)
  }

  /**
   * `s` is the free preferred seat among the first `n` rows that comes first by row, then by
   * preference.
   */
  ghost predicate FirstPref(m: seq<seq<bool>>, n: int, s: Seat)
    requires |m| >= 1
  {
    var i := PrefIndex(|m[0]|, s.1);
    0 <= s.0 < n && s.1 == PrefCol(|m[0]|, i) && FreePref(m, s.0, i)
    && forall r, j :: 0 <= r < n && FreePref(m, r, j) ==> PrefNoLater(s.0, i, r, j)
  }

  /**
   * Scanning a row keeps a non-empty list's head, and on an empty list puts first the row's
   * most preferred free seat; the list stays empty exactly when no preferred seat is free.
   */
  lemma AddRowPrefsHead(list: seq<Seat>, m: seq<seq<bool>>, r: int)
    requires Grid(m) && 0 <= r < |m|
    ensures var p := AddRowPrefs(list, m, r, |m[0]|);
      (p == [] <==> list == [] && forall j :: 0 <= j < 5 ==> !FreePref(m, r, j))
      && (list != [] ==> p[0] == list[0])
      && (list == [] && p != [] ==> RowFirst(m, r, p[0]))
  {
    var cols := |m[0]|;
    assert |m[r]| == cols;
    if !m[r][0] {
      assert FreePref(m, r, 0);
    } else if !m[r][2] {
      assert FreePref(m, r, 1);
    } else if !m[r][3] {
      assert FreePref(m, r, 2);
    } else if !m[r][5] {
      assert FreePref(m, r, 3);
    } else if !m[r][cols - 1] {
      assert FreePref(m, r, 4);
    }
  }

  /**
   * The candidate list of the first `n` rows is empty exactly when none of their preferred
   * seats is free, and otherwise starts with the free preferred seat that comes first by row
   * and then by preference.
   */
  lemma {:induction false} PreferencesHead(m: seq<seq<bool>>, n: int)
    requires Grid(m) && 0 <= n <= |m|
    ensures var p := Preferences(m, n, |m[0]|);
      (p == [] <==> forall r, j :: 0 <= r < n ==> !FreePref(m, r, j))
      && (p != [] ==> FirstPref(m, n, p[0]))
  {
    if n > 0 {
      PreferencesHead(m, n - 1);
      HeadStep(m, n, Preferences(m, n - 1, |m[0]|), Preferences(m, n, |m[0]|));
    }
  }

  /** Scanning row `n` extends the candidate list of the first `n` rows to that of the first `n + 1`. */
  lemma PreferencesNext(m: seq<seq<bool>>, n: int, q: seq<Seat>, p: seq<Seat>)
    requires Grid(m) && 0 <= n < |m| && q == Preferences(m, n, |m[0]|)
    requires p == Push(Push(Push(Push(Push(q, m[n][0], (n, 0)), m[n][2], (n, 2)), m[n][3], (n, 3)), m[n][5], (n, 5)),
                       m[n][|m[0]| - 1], (n, |m[0]| - 1))
    ensures p == Preferences(m, n + 1, |m[0]|)
  {
    assert |m[n]| == |m[0]|;
  }

  /** The head facts of the candidate list carry over the scan of row `n - 1`. */
  lemma HeadStep(m: seq<seq<bool>>, n: int, q: seq<Seat>, p: seq<Seat>)
    requires Grid(m) && 0 < n <= |m| && p == AddRowPrefs(q, m, n - 1, |m[0]|)
    requires q == [] <==> forall r, j :: 0 <= r < n - 1 ==> !FreePref(m, r, j)
    requires q != [] ==> FirstPref(m, n - 1, q[0])
    ensures p == [] <==> forall r, j :: 0 <= r < n ==> !FreePref(m, r, j)
    ensures p != [] ==> FirstPref(m, n, p[0])
  {
    AddRowPrefsHead(q, m, n - 1);
    if q != [] {
      FirstPrefExtend(m, n, q[0]);
    } else if p != [] {
      FirstPrefOfRow(m, n, p[0]);
    }
  }

  /** The first free preferred seat of the first `n - 1` rows stays first when row `n - 1` is added. */
  lemma FirstPrefExtend(m: seq<seq<bool>>, n: int, s: Seat)
    requires Grid(m) && 0 < n <= |m| && FirstPref(m, n - 1, s)
    ensures FirstPref(m, n, s)
  {
    var i := PrefIndex(|m[0]|, s.1);
    forall r, j | 0 <= r < n && FreePref(m, r, j) ensures PrefNoLater(s.0, i, r, j) {
      if r < n - 1 {
        assert PrefNoLater(s.0, i, r, j);
      }
    }
  }

  /** When the first `n - 1` rows have no free preferred seat, row `n - 1`'s first one comes first. */
  lemma FirstPrefOfRow(m: seq<seq<bool>>, n: int, s: Seat)
    requires Grid(m) && 0 < n <= |m| && RowFirst(m, n - 1, s)
    requires forall r, j :: 0 <= r < n - 1 ==> !FreePref(m, r, j)
    ensures FirstPref(m, n, s)
  {
    var i := PrefIndex(|m[0]|, s.1);
    forall r, j | 0 <= r < n && FreePref(m, r, j) ensures PrefNoLater(s.0, i, r, j) {
    }
  }

  /** The assigned seat, when there is one, lies in the grid and was free. */
  lemma BestSeatIsFree(m: seq<seq<bool>>)
    requires Grid(m)
    ensures var s := BestSeat(m);
      s != NoSeat ==> 0 <= s.0 < |m| && 0 <= s.1 < |m[s.0]| && !m[s.0][s.1]
  {
    PreferencesHead(m, |m|);
  }

  /** (-1, -1) is given exactly when the grid is full. */
  lemma BestSeatFullIff(m: seq<seq<bool>>)
    requires Grid(m)
    ensures BestSeat(m) == NoSeat <==> Full(m)
  {
    PreferencesHead(m, |m|);
    var p := Preferences(m, |m|, |m[0]|);
    if p != [] {
      var s := p[0];
      assert 0 <= s.0 < |m| && !m[s.0][s.1];
    } else {
      var r := FirstFreeRow(m, 0);
      if r < |m| {
        var c := FirstFreeIn(m[r], 0);
        assert !m[r][c];
      } else {
        forall i, c | 0 <= i < |m| && 0 <= c < |m[i]| ensures m[i][c] {
          assert RowFull(m[i]);
        }
      }
    }
  }

  /**
   * When some preferred seat is free, the seat given is a free preferred seat, and no free
   * preferred seat comes before it by row and then by preference.
   */
  lemma BestSeatPreferred(m: seq<seq<bool>>, r0: int, j0: int)
    requires Grid(m) && FreePref(m, r0, j0)
    ensures FirstPref(m, |m|, BestSeat(m))
  {
    PreferencesHead(m, |m|);
  }

  /** When preference `j0` of row `r0` is free and no free preference comes before it, it is the seat given. */
  lemma BestSeatAt(m: seq<seq<bool>>, r0: int, j0: int)
    requires Grid(m) && FreePref(m, r0, j0)
    requires forall r, j :: FreePref(m, r, j) ==> PrefNoLater(r0, j0, r, j)
    ensures BestSeat(m) == (r0, PrefCol(|m[0]|, j0))
  {
    BestSeatPreferred(m, r0, j0);
  }

  /**
   * When no preferred seat is free but the grid is not full, the seat given is the first free
   * seat in row-major order.
   */
  lemma BestSeatFallback(m: seq<seq<bool>>)
    requires Grid(m) && !Full(m) && forall r, j :: !FreePref(m, r, j)
    ensures var s := BestSeat(m);
      0 <= s.0 < |m| && 0 <= s.1 < |m[s.0]| && !m[s.0][s.1]
      && forall r, c :: 0 <= r < |m| && 0 <= c < |m[r]| && !m[r][c] ==> s.0 < r || (s.0 == r && s.1 <= c)
  {
    PreferencesHead(m, |m|);
    BestSeatFullIff(m);
    var k := FirstFreeRow(m, 0);
    forall r, c | 0 <= r < |m| && 0 <= c < |m[r]| && !m[r][c] ensures k < r || (k == r && FirstFreeIn(m[k], 0) <= c) {
      assert m[r][c] || !RowFull(m[r]);
    }
  }

  /** Taking a seat marks that seat and no other, and keeps the grid's shape. */
  lemma OccupyEffect(m: seq<seq<bool>>, s: Seat)
    requires Grid(m) && (s == NoSeat || (0 <= s.0 < |m| && 0 <= s.1 < |m[s.0]|))
    ensures Grid(Occupy(m, s)) && |Occupy(m, s)| == |m|
    ensures forall r, c :: 0 <= r < |m| && 0 <= c < |m[r]| ==>
      |Occupy(m, s)[r]| == |m[r]| && Occupy(m, s)[r][c] == (m[r][c] || (r, c) == s)
  {
  }

  /** The grid of seats, filled greedily. */
  class SeatAssigner {
    var seatMap: seq<seq<bool>>

    ghost predicate Valid()
      reads this
    {
      Grid(seatMap)
    }

    /** A grid of `rows` rows of `cols` free seats. */
    constructor (rows: int, cols: int)
      requires rows >= 1 && cols >= 6
      ensures Valid() && |seatMap| == rows
      ensures forall r :: 0 <= r < rows ==> seatMap[r] == seq(cols, _ => false)
    {
      seatMap := seq(rows, _ => seq(cols, _ => false));
    }

    /**
     * Collects the free preferred seats row by row and takes the first; failing that takes
     * the first free seat in row-major order; failing that reports (-1, -1).
     */
    method AssignBestSeat() returns (seat: Seat)
      requires Valid()
      modifies this
      ensures seat == BestSeat(old(seatMap))
      ensures (seat == NoSeat || (0 <= seat.0 < |old(seatMap)| && 0 <= seat.1 < |old(seatMap)[seat.0]|))
              && seatMap == Occupy(old(seatMap), seat)
      ensures Valid()
    {
      var preferences := CollectPreferences();
      if preferences != [] {
        seat := preferences[0];
        PreferencesHead(seatMap, |seatMap|);
        assert FirstPref(seatMap, |seatMap|, seat);
      } else {
        seat := FirstFreeSeat();
      }
      if seat != NoSeat {
        seatMap := seatMap[seat.0 := seatMap[seat.0][seat.1 := true]];
      }
    }

    /** The preferred seats still free, row by row, in the order the assigner tries them. */
    method CollectPreferences() returns (preferences: seq<Seat>)
      requires Valid()
      ensures preferences == Preferences(seatMap, |seatMap|, |seatMap[0]|)
    {
      var cols := |seatMap[0]|;
      preferences := [];
      var row := 0;
      while row < |seatMap|
        invariant 0 <= row <= |seatMap|
        invariant preferences == Preferences(seatMap, row, cols)
      {
        assert |seatMap[row]| == cols;
        ghost var p0 := preferences;
        preferences := Push(preferences, seatMap[row][0], (row, 0));
        preferences := Push(preferences, seatMap[row][2], (row, 2));
        preferences := Push(preferences, seatMap[row][3], (row, 3));
        preferences := Push(preferences, seatMap[row][5], (row, 5));
        preferences := Push(preferences, seatMap[row][cols - 1], (row, cols - 1));
        PreferencesNext(seatMap, row, p0, preferences);
        row := row + 1;
      }
    }

    /** The row-major scan for any free seat; (-1, -1) when every seat is taken. */
    method FirstFreeSeat() returns (seat: Seat)
      requires Valid()
      ensures seat == FallbackSeat(seatMap)
      ensures seat == NoSeat || (0 <= seat.0 < |seatMap| && 0 <= seat.1 < |seatMap[seat.0]| && !seatMap[seat.0][seat.1])
    {
      var row := 0;
      while row < |seatMap|
        invariant 0 <= row <= |seatMap|
        invariant forall i :: 0 <= i < row ==> RowFull(seatMap[i])
      {
        var col := 0;
        while col < |seatMap[row]|
          invariant 0 <= col <= |seatMap[row]|
          invariant forall c :: 0 <= c < col ==> seatMap[row][c]
        {
          if !seatMap[row][col] {
            FirstFreeAt(seatMap, row, col);
            return (row, col);
          }
          col := col + 1;
        }
        row := row + 1;
      }
      assert FirstFreeRow(seatMap, 0) == |seatMap|;
      seat := NoSeat;
    }
  }

  /** A row-major scan that stops at the first free seat stops at the one the fallback names. */
  lemma FirstFreeAt(m: seq<seq<bool>>, row: int, col: int)
    requires 0 <= row < |m| && 0 <= col < |m[row]| && !m[row][col]
    requires forall i :: 0 <= i < row ==> RowFull(m[i])
    requires forall c :: 0 <= c < col ==> m[row][c]
    ensures FirstFreeRow(m, 0) == row && FirstFreeIn(m[row], 0) == col
  {
    assert !RowFull(m[row]);
  }

  /** A grid of 10 rows of 6 seats where row 0's first `k` preferred seats are taken and nothing else. */
  function DemoGrid(k: int): seq<seq<bool>>
  {
    seq(10, r => if r == 0 then seq(6, c => PrefIndex(6, c) < k) else seq(6, _ => false))
  }

  /** A fresh grid of 10 rows of 6 seats is `DemoGrid(0)`. */
  lemma DemoStart(m: seq<seq<bool>>)
    requires |m| == 10 && forall r :: 0 <= r < 10 ==> m[r] == seq(6, _ => false)
    ensures m == DemoGrid(0)
  {
    var g := DemoGrid(0);
    forall r | 0 <= r < 10 ensures m[r] == g[r] {
      assert g[r] == if r == 0 then seq(6, c => PrefIndex(6, c) < 0) else seq(6, _ => false);
      assert m[r] == seq(6, _ => false);
    }
  }

  /** The seat the demo's `k`-th assignment gives: row 0's preference `k`, then row 1's first seat. */
  function DemoSeat(k: int): Seat
  {
    if k < 4 then (0, PrefCol(6, k)) else (1, 0)
  }

  /**
   * On `DemoGrid(k)` the seat given is `DemoSeat(k)`: row 0's preference `k` while one is free,
   * then row 1's first; taking a row-0 seat gives `DemoGrid(k + 1)`.
   */
  lemma DemoStep(k: int)
    requires 0 <= k <= 4
    ensures BestSeat(DemoGrid(k)) == DemoSeat(k)
    ensures k < 4 ==> Occupy(DemoGrid(k), DemoSeat(k)) == DemoGrid(k + 1)
  {
    var m := DemoGrid(k);
    assert m[0] == seq(6, c => PrefIndex(6, c) < k);
    if k == 4 {
      forall r, j | FreePref(m, r, j) ensures PrefNoLater(1, 0, r, j) {
      }
      BestSeatAt(m, 1, 0);
    } else {
      assert PrefIndex(6, PrefCol(6, k)) == k;
      forall r, j | FreePref(m, r, j) ensures PrefNoLater(0, k, r, j) {
        if r == 0 {
          assert PrefIndex(6, PrefCol(6, j)) >= k;
        }
      }
      BestSeatAt(m, 0, k);
      var m' := Occupy(m, (0, PrefCol(6, k)));
      forall c | 0 <= c < 6 ensures m'[0][c] == DemoGrid(k + 1)[0][c] {
        assert m'[0][c] == (c == PrefCol(6, k) || PrefIndex(6, c) < k);
      }
      forall r | 0 <= r < 10 ensures m'[r] == DemoGrid(k + 1)[r] {
      }
    }
  }

  /**
   * On a fresh grid of 10 rows of 6 seats, five assignments take row 0's aisle seats in
   * column order 0, 2, 3, 5 (column 5 is also the window) and then row 1's first aisle seat.
   */
  method SeatDemo() returns (seats: seq<Seat>)
    ensures seats == [(0, 0), (0, 2), (0, 3), (0, 5), (1, 0)]
  {
    var assigner := new SeatAssigner(10, 6);
    DemoStart(assigner.seatMap);
    seats := [];
    var i := 0;
    while i < 5
      invariant 0 <= i <= 5 && assigner.Valid() && (i < 5 ==> assigner.seatMap == DemoGrid(i))
      invariant |seats| == i && forall t :: 0 <= t < i ==> seats[t] == DemoSeat(t)
    {
      DemoStep(i);
      var seat := assigner.AssignBestSeat();
      seats := seats + [seat];
      i := i + 1;
    }
    assert seats == [DemoSeat(0), DemoSeat(1), DemoSeat(2), DemoSeat(3), DemoSeat(4)];
  }
}
