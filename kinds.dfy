/**
  Kind resolution (`StructureDataCore.get_kinds`).

  Step 1 clusters every site property that is not excluded, one column of
  labels per property. Step 2 reads the labels as one row per site and walks
  the rows from the first: row `i` names every site whose row equals it
  `symbol[i] + str(i)` (or `i + N` when that name is already a tag), records
  `i` in the consistency array, and appends the number once per such site to
  the numeration; the walk stops as soon as every site has been named. A site
  is named again each time a later row equal to its own is visited, so the
  last visit decides. Step 3 lets truthy tags override the names; step 4
  compares the consistency array with the first occurrences of the tags.
*/
module KindResolution {
  import opened Common
  import opened Decimal
  import Clustering

  /** An entry of `kind_tags`: `None` or a string. */
  datatype Tag = NoTag | Named(name: string)

  /** Python truthiness of a tag: `None` and `""` are false. */
  predicate Truthy(t: Tag) {
    t.Named? && t.name != ""
  }

  function Abs(x: int): nat {
    if x < 0 then -x else x
  }

  /** `np.sum(np.abs(a - b))` for two rows of labels. */
  function RowDistance(a: seq<int>, b: seq<int>): (d: int)
    requires |a| == |b|
    ensures d >= 0
  {
    if |a| == 0 then 0
    else RowDistance(a[..|a| - 1], b[..|b| - 1]) + Abs(a[|a| - 1] - b[|b| - 1])
  }

  /** Two rows are at distance 0 exactly when they are equal. */
  lemma {:induction false} RowDistanceZeroIffEqual(a: seq<int>, b: seq<int>)
    requires |a| == |b|
    ensures RowDistance(a, b) == 0 <==> a == b
  {
    if |a| > 0 {
      var m := |a| - 1;
      RowDistanceZeroIffEqual(a[..m], b[..m]);
      assert a == a[..m] + [a[m]] && b == b[..m] + [b[m]];
    }
  }

  /** All rows have the same number of columns. */
  ghost predicate Uniform(rows: seq<seq<int>>) {
    forall j :: 0 <= j < |rows| ==> |rows[j]| == |rows[0]|
  }

  /**
    `k.T`: row `j` lists site `j`'s label in every clustered property; with
    no clustered property there are no rows.
  */
  function Rows(columns: seq<seq<int>>, n: nat): (rows: seq<seq<int>>)
    requires forall c :: 0 <= c < |columns| ==> |columns[c]| == n
    ensures |rows| == if |columns| == 0 then 0 else n
    ensures forall j :: 0 <= j < |rows| ==> |rows[j]| == |columns|
  {
    if |columns| == 0 then []
    else seq(n, j requires 0 <= j < n =>
           seq(|columns|, c requires 0 <= c < |columns| => columns[c][j]))
  }

  /** Two sites share a row exactly when every column gives them the same label. */
  lemma RowsEqualIffColumnsAgree(columns: seq<seq<int>>, n: nat, a: nat, b: nat)
    requires forall c :: 0 <= c < |columns| ==> |columns[c]| == n
    requires |columns| > 0 && a < n && b < n
    ensures Rows(columns, n)[a] == Rows(columns, n)[b] <==>
              forall c :: 0 <= c < |columns| ==> columns[c][a] == columns[c][b]
  {
    var rows := Rows(columns, n);
    if forall c :: 0 <= c < |columns| ==> columns[c][a] == columns[c][b] {
      assert forall c :: 0 <= c < |columns| ==> rows[a][c] == rows[b][c];
    } else {
      var c :| 0 <= c < |columns| && columns[c][a] != columns[c][b];
      assert rows[a][c] != rows[b][c];
    }
  }

  /** The last row before `t` equal to row `j`, or -1 when there is none. */
  function LastMatch(rows: seq<seq<int>>, j: nat, t: nat): (l: int)
    requires j < |rows| && t <= |rows|
    ensures -1 <= l < t
    ensures l >= 0 ==> rows[l] == rows[j]
    ensures forall i :: l < i < t ==> rows[i] != rows[j]
  {
    if t == 0 then -1
    else if rows[t - 1] == rows[j] then t - 1
    else LastMatch(rows, j, t - 1)
  }

  /** Site `j` has been named by the first `t` rows exactly when its row first occurs before `t`. */
  lemma VisitedIffFirstBefore(rows: seq<seq<int>>, j: nat, t: nat)
    requires j < |rows| && t <= |rows|
    ensures LastMatch(rows, j, t) >= 0 <==> IndexOf(rows, rows[j]) < t
  {
    var f := IndexOf(rows, rows[j]);
    var l := LastMatch(rows, j, t);
    if f < t {
      assert rows[f] == rows[j];
    }
    if l >= 0 {
      assert f <= l;
    }
  }

  /** The largest first occurrence among the rows before `t`. */
  function LastFirst(rows: seq<seq<int>>, t: nat): (s: nat)
    requires 0 < t <= |rows|
    ensures s < t
    ensures forall j :: 0 <= j < t ==> IndexOf(rows, rows[j]) <= s
    ensures exists j :: 0 <= j < t && IndexOf(rows, rows[j]) == s
  {
    var f := IndexOf(rows, rows[t - 1]);
    if t == 1 then f
    else
      var m := LastFirst(rows, t - 1);
      if m < f then f else m
  }

  /**
    How many rows the walk of step 2 visits: it stops after the row at which
    the last site gets its first name.
  */
  function Visited(rows: seq<seq<int>>): (t: nat)
    ensures t <= |rows|
    ensures |rows| > 0 ==> t > 0
  {
    if |rows| == 0 then 0 else LastFirst(rows, |rows|) + 1
  }

  /** Every site has been named after the first `t` rows exactly when the walk has reached its end. */
  lemma AllNamedIffVisited(rows: seq<seq<int>>, t: nat)
    requires 0 < t <= |rows|
    ensures (forall j :: 0 <= j < |rows| ==> LastMatch(rows, j, t) >= 0) <==> Visited(rows) <= t
  {
    var s := LastFirst(rows, |rows|);
    if forall j :: 0 <= j < |rows| ==> LastMatch(rows, j, t) >= 0 {
      var w :| 0 <= w < |rows| && IndexOf(rows, rows[w]) == s;
      VisitedIffFirstBefore(rows, w, t);
    } else {
      var j :| 0 <= j < |rows| && LastMatch(rows, j, t) < 0;
      VisitedIffFirstBefore(rows, j, t);
    }
  }

  /** The walk's stop test, `len(np.where(kinds == -1)[0]) == 0`. */
  predicate AllAssigned(kinds: seq<int>) {
    forall q :: 0 <= q < |kinds| ==> kinds[q] != -1
  }

  /** The stop test holds exactly when the walk has visited enough rows. */
  lemma AllAssignedIffVisited(rows: seq<seq<int>>, kinds: seq<int>, t: nat)
    requires 0 < t <= |rows| == |kinds|
    requires forall j :: 0 <= j < |rows| ==> kinds[j] == LastMatch(rows, j, t)
    ensures AllAssigned(kinds) <==> Visited(rows) <= t
  {
    AllNamedIffVisited(rows, t);
  }

  /** The number appended for row `i`: `i`, or `i + N` when `symbol[i] + str(i)` is one of the tags. */
  function Number(symbols: seq<string>, tags: seq<Tag>, i: nat): (n: nat)
    requires i < |symbols|
    ensures n == i || n == i + |symbols|
    ensures n >= |symbols| <==> Named(symbols[i] + NatToString(i)) in tags
  {
    if Named(symbols[i] + NatToString(i)) in tags then i + |symbols| else i
  }

  /** The name row `i` gives its sites. */
  function KindName(symbols: seq<string>, tags: seq<Tag>, i: nat): (name: string)
    requires i < |symbols|
    ensures |name| > |symbols[i]| && name[..|symbols[i]|] == symbols[i]
    ensures AllDigits(name[|symbols[i]|..])
  {
    symbols[i] + NatToString(Number(symbols, tags, i))
  }

  /** The rows step 2 works on: none at all, or one per site, all of one width. */
  ghost predicate Grid(rows: seq<seq<int>>, n: nat) {
    (|rows| == 0 || |rows| == n) && Uniform(rows)
  }

  /** `kind_names` after the first `t` rows: each named site carries the name of its last visit. */
  function NamesAt(rows: seq<seq<int>>, symbols: seq<string>, tags: seq<Tag>, t: nat): (names: seq<string>)
    requires |rows| == 0 || |rows| == |symbols|
    requires t <= |rows|
    ensures |names| == |symbols|
    ensures t == 0 ==> names == symbols
  {
    seq(|symbols|, j requires 0 <= j < |symbols| =>
      if j < |rows| && LastMatch(rows, j, t) >= 0 then KindName(symbols, tags, LastMatch(rows, j, t))
      else symbols[j])
  }

  /** `check_array` after the first `t` rows: the last visit of every named site, 0 elsewhere. */
  function CheckAt(rows: seq<seq<int>>, n: nat, t: nat): (check: seq<int>)
    requires |rows| == 0 || |rows| == n
    requires t <= |rows|
    ensures |check| == n
    ensures forall j :: 0 <= j < n ==> 0 <= check[j] && (t == 0 ==> check[j] == 0) && (t > 0 ==> check[j] < t)
  {
    seq(n, j requires 0 <= j < n =>
      if j < |rows| && LastMatch(rows, j, t) >= 0 then LastMatch(rows, j, t) else 0)
  }

  /** The number of rows before `j` equal to `x`. */
  function CountMatches(rows: seq<seq<int>>, x: seq<int>, j: nat): (c: nat)
    requires j <= |rows|
    ensures c <= j
  {
    if j == 0 then 0
    else CountMatches(rows, x, j - 1) + (if rows[j - 1] == x then 1 else 0)
  }

  /** `c` copies of `x`. */
  function Repeat(x: int, c: nat): (r: seq<int>)
    ensures |r| == c
    ensures forall k :: 0 <= k < c ==> r[k] == x
  {
    if c == 0 then [] else Repeat(x, c - 1) + [x]
  }

  /** `kind_numeration` after the first `t` rows: row `i`'s number once for every site equal to it. */
  function Numeration(rows: seq<seq<int>>, symbols: seq<string>, tags: seq<Tag>, t: nat): (index: seq<int>)
    requires |rows| == 0 || |rows| == |symbols|
    requires t <= |rows|
    ensures forall k :: 0 <= k < |index| ==> 0 <= index[k] < 2 * |symbols|
  {
    if t == 0 then []
    else
      Numeration(rows, symbols, tags, t - 1)
        + Repeat(Number(symbols, tags, t - 1), CountMatches(rows, rows[t - 1], |rows|))
  }

  /** The state of the walk of step 2 after the first `t` rows. */
  ghost predicate WalkedTo(rows: seq<seq<int>>, symbols: seq<string>, tags: seq<Tag>, t: nat,
                           names: seq<string>, numeration: seq<int>, check: seq<int>, kinds: seq<int>)
    requires Grid(rows, |symbols|) && t <= |rows|
  {
    && names == NamesAt(rows, symbols, tags, t)
    && numeration == Numeration(rows, symbols, tags, t)
    && check == CheckAt(rows, |symbols|, t)
    && |kinds| == |symbols|
    && forall j :: 0 <= j < |rows| ==> kinds[j] == LastMatch(rows, j, t)
  }

  /** Before any row is visited every site keeps its symbol, has check value 0 and no kind. */
  lemma WalkStarts(rows: seq<seq<int>>, symbols: seq<string>, tags: seq<Tag>, check: seq<int>, kinds: seq<int>)
    requires Grid(rows, |symbols|)
    requires |check| == |kinds| == |symbols|
    requires forall q :: 0 <= q < |symbols| ==> check[q] == 0 && kinds[q] == -1
    ensures WalkedTo(rows, symbols, tags, 0, symbols, [], check, kinds)
  {
    assert NamesAt(rows, symbols, tags, 0) == symbols;
    assert CheckAt(rows, |symbols|, 0) == check;
  }

  /** Which sites have a row equal to row `i` (`diff_sum == 0`). */
  function SameRow(rows: seq<seq<int>>, i: nat): (mask: seq<bool>)
    requires i < |rows|
    ensures |mask| == |rows|
    ensures forall q :: 0 <= q < |rows| ==> (mask[q] <==> rows[q] == rows[i])
  {
    seq(|rows|, q requires 0 <= q < |rows| => rows[q] == rows[i])
  }

  /** `s` is `base` with `x` written at every position before `j` that `mask` selects. */
  ghost predicate MarkedUpTo<T>(mask: seq<bool>, j: nat, x: T, base: seq<T>, s: seq<T>) {
    |s| == |base| == |mask| && forall q :: 0 <= q < |s| ==> s[q] == if q < j && mask[q] then x else base[q]
  }

  lemma MarkedStep<T>(mask: seq<bool>, j: nat, x: T, base: seq<T>, s: seq<T>, s': seq<T>)
    requires MarkedUpTo(mask, j, x, base, s) && j < |mask|
    requires s' == if mask[j] then s[j := x] else s
    ensures MarkedUpTo(mask, j + 1, x, base, s')
  {
  }

  /** Naming the sites of row `i` turns the names after `i` rows into the names after `i + 1`. */
  lemma NamesStep(rows: seq<seq<int>>, symbols: seq<string>, tags: seq<Tag>, i: nat,
                  before: seq<string>, after: seq<string>)
    requires |rows| == |symbols| && i < |rows|
    requires before == NamesAt(rows, symbols, tags, i)
    requires MarkedUpTo(SameRow(rows, i), |rows|, KindName(symbols, tags, i), before, after)
    ensures after == NamesAt(rows, symbols, tags, i + 1)
  {
  }

  /** Recording `i` at the sites of row `i` turns the check array after `i` rows into the one after `i + 1`. */
  lemma CheckStep(rows: seq<seq<int>>, n: nat, i: nat, before: seq<int>, after: seq<int>)
    requires |rows| == n && i < |rows|
    requires before == CheckAt(rows, n, i)
    requires MarkedUpTo(SameRow(rows, i), |rows|, i, before, after)
    ensures after == CheckAt(rows, n, i + 1)
  {
  }

  /** Visiting row `i` takes the walk's state after `i` rows to its state after `i + 1`. */
  lemma WalkStep(rows: seq<seq<int>>, symbols: seq<string>, tags: seq<Tag>, i: nat,
                 names: seq<string>, numeration: seq<int>, check: seq<int>,
                 newNames: seq<string>, newNumeration: seq<int>, newCheck: seq<int>, newKinds: seq<int>)
    requires Grid(rows, |symbols|) && i < |rows|
    requires names == NamesAt(rows, symbols, tags, i)
    requires numeration == Numeration(rows, symbols, tags, i)
    requires check == CheckAt(rows, |symbols|, i)
    requires MarkedUpTo(SameRow(rows, i), |rows|, KindName(symbols, tags, i), names, newNames)
    requires MarkedUpTo(SameRow(rows, i), |rows|, i, check, newCheck)
    requires newNumeration == numeration + Repeat(Number(symbols, tags, i), CountMatches(rows, rows[i], |rows|))
    requires |newKinds| == |symbols|
    requires forall j :: 0 <= j < |rows| ==> newKinds[j] == LastMatch(rows, j, i + 1)
    ensures WalkedTo(rows, symbols, tags, i + 1, newNames, newNumeration, newCheck, newKinds)
  {
    NamesStep(rows, symbols, tags, i, names, newNames);
    CheckStep(rows, |symbols|, i, check, newCheck);
  }

  /** `kinds[np.where(diff_sum == 0)[0]] = i`. */
  method MarkRow(kinds: array<int>, rows: seq<seq<int>>, i: nat)
    requires Uniform(rows) && kinds.Length == |rows| && i < |rows|
    requires forall j :: 0 <= j < |rows| ==> kinds[j] == LastMatch(rows, j, i)
    modifies kinds
    ensures forall j :: 0 <= j < |rows| ==> kinds[j] == LastMatch(rows, j, i + 1)
  {
    forall j | 0 <= j < |rows| && RowDistance(rows[j], rows[i]) == 0 {
      kinds[j] := i;
    }
    forall q | 0 <= q < |rows|
      ensures kinds[q] == LastMatch(rows, q, i + 1)
    {
      RowDistanceZeroIffEqual(rows[q], rows[i]);
    }
  }

  /**
    The inner loop of the walk (`for where in np.where(diff_sum == 0)[0]`):
    each site whose row equals row `i`, in site order, appends row `i`'s number
    to the numeration and takes `symbol[i]` followed by that number as its
    name and `i` as its check value.
  */
  method NameRow(rows: seq<seq<int>>, symbols: seq<string>, tags: seq<Tag>, i: nat,
                 checkArray: array<int>, names: seq<string>, numeration: seq<int>)
    returns (newNames: seq<string>, newNumeration: seq<int>)
    requires Uniform(rows) && |rows| == |symbols| && i < |rows|
    requires checkArray.Length == |symbols| && |names| == |symbols|
    modifies checkArray
    ensures MarkedUpTo(SameRow(rows, i), |rows|, KindName(symbols, tags, i), names, newNames)
    ensures MarkedUpTo(SameRow(rows, i), |rows|, i, old(checkArray[..]), checkArray[..])
    ensures newNumeration == numeration + Repeat(Number(symbols, tags, i), CountMatches(rows, rows[i], |rows|))
  {
    var n := |rows|;
    var element := symbols[i];
    ghost var before := checkArray[..];
    ghost var count := 0;
    newNames := names;
    newNumeration := numeration;
    var j := 0;
    while j < n
      invariant 0 <= j <= n
      invariant NamedUpTo(rows, symbols, tags, i, j, names, before, numeration, newNames, checkArray[..], count, newNumeration)
    {
      ghost var namesBefore, checkBefore, numerationBefore := newNames, checkArray[..], newNumeration;
      RowDistanceZeroIffEqual(rows[j], rows[i]);
      if RowDistance(rows[j], rows[i]) == 0 {
        newNames, newNumeration := NameSite(symbols, tags, i, element, j, checkArray, newNames, newNumeration);
      }
      NamedUpToStep(rows, symbols, tags, i, j, names, before, numeration,
                    namesBefore, checkBefore, count, numerationBefore, newNames, checkArray[..], newNumeration);
      count := CountMatches(rows, rows[i], j + 1);
      j := j + 1;
    }
  }

  /** The state of the inner loop after its first `j` sites. */
  ghost predicate NamedUpTo(rows: seq<seq<int>>, symbols: seq<string>, tags: seq<Tag>, i: nat, j: nat,
                            names: seq<string>, before: seq<int>, numeration: seq<int>,
                            newNames: seq<string>, check: seq<int>, count: nat, newNumeration: seq<int>)
    requires i < |rows| == |symbols| && j <= |rows|
  {
    && MarkedUpTo(SameRow(rows, i), j, KindName(symbols, tags, i), names, newNames)
    && MarkedUpTo(SameRow(rows, i), j, i, before, check)
    && count == CountMatches(rows, rows[i], j)
    && newNumeration == numeration + Repeat(Number(symbols, tags, i), count)
  }

  /** Handling site `j` takes the inner loop's state after `j` sites to its state after `j + 1`. */
  lemma NamedUpToStep(rows: seq<seq<int>>, symbols: seq<string>, tags: seq<Tag>, i: nat, j: nat,
                      names: seq<string>, before: seq<int>, numeration: seq<int>,
                      newNames: seq<string>, check: seq<int>, count: nat, newNumeration: seq<int>,
                      newNames': seq<string>, check': seq<int>, newNumeration': seq<int>)
    requires i < |rows| == |symbols| && j < |rows|
    requires NamedUpTo(rows, symbols, tags, i, j, names, before, numeration, newNames, check, count, newNumeration)
    requires rows[j] == rows[i] ==>
               && newNames' == newNames[j := KindName(symbols, tags, i)]
               && check' == check[j := i]
               && newNumeration' == newNumeration + [Number(symbols, tags, i)]
    requires rows[j] != rows[i] ==> newNames' == newNames && check' == check && newNumeration' == newNumeration
    ensures NamedUpTo(rows, symbols, tags, i, j + 1, names, before, numeration,
                      newNames', check', CountMatches(rows, rows[i], j + 1), newNumeration')
  {
    var mask := SameRow(rows, i);
    MarkedStep(mask, j, KindName(symbols, tags, i), names, newNames, newNames');
    MarkedStep(mask, j, i, before, check, check');
  }

  /**
    The body of the inner loop for a site `j` whose row equals row `i`: append
    the number of row `i` (`i`, or `i + N` when `element + str(i)` is a tag),
    name the site after the number just appended and record `i` for it.
  */
  method NameSite(symbols: seq<string>, tags: seq<Tag>, i: nat, element: string, j: nat,
                  checkArray: array<int>, names: seq<string>, numeration: seq<int>)
    returns (newNames: seq<string>, newNumeration: seq<int>)
    requires i < |symbols| && element == symbols[i]
    requires j < checkArray.Length && j < |names|
    modifies checkArray
    ensures checkArray[..] == old(checkArray[..])[j := i]
    ensures newNumeration == numeration + [Number(symbols, tags, i)]
    ensures newNames == names[j := KindName(symbols, tags, i)]
  {
    if Named(element + NatToString(i)) in tags {
      newNumeration := numeration + [i + |symbols|];
    } else {
      newNumeration := numeration + [i];
    }
    newNames := names[j := element + NatToString(newNumeration[|newNumeration| - 1])];
    checkArray[j] := i;
  }

  /**
    One pass of the walk of step 2 (`for i in range(len(k))`): every site whose
    row equals row `i` gets kind `i`, the name of row `i`, check value `i` and
    one entry in the numeration.
  */
  method VisitRow(rows: seq<seq<int>>, symbols: seq<string>, tags: seq<Tag>, i: nat,
                  kinds: array<int>, checkArray: array<int>, names: seq<string>, numeration: seq<int>)
    returns (newNames: seq<string>, newNumeration: seq<int>)
    requires Grid(rows, |symbols|) && i < |rows|
    requires kinds.Length == |symbols| && checkArray.Length == |symbols| && kinds != checkArray
    requires WalkedTo(rows, symbols, tags, i, names, numeration, checkArray[..], kinds[..])
    modifies kinds, checkArray
    ensures WalkedTo(rows, symbols, tags, i + 1, newNames, newNumeration, checkArray[..], kinds[..])
  {
    ghost var checkBefore := checkArray[..];
    MarkRow(kinds, rows, i);
    newNames, newNumeration := NameRow(rows, symbols, tags, i, checkArray, names, numeration);
    WalkStep(rows, symbols, tags, i, names, numeration, checkBefore,
             newNames, newNumeration, checkArray[..], kinds[..]);
  }

  /**
    Step 2 of `get_kinds`: the walk over the rows, which stops as soon as
    every site has a kind. Returns `kind_names`, `kind_numeration` and
    `check_array`.
  */
  method GroupSites(rows: seq<seq<int>>, symbols: seq<string>, tags: seq<Tag>)
    returns (names: seq<string>, numeration: seq<int>, check: seq<int>)
    requires Grid(rows, |symbols|)
    ensures names == NamesAt(rows, symbols, tags, Visited(rows))
    ensures numeration == Numeration(rows, symbols, tags, Visited(rows))
    ensures check == CheckAt(rows, |symbols|, Visited(rows))
  {
    var n := |symbols|;
    var kinds := new int[n](_ => -1);
    var checkArray := new int[n](_ => 0);
    names := symbols;
    numeration := [];
    WalkStarts(rows, symbols, tags, checkArray[..], kinds[..]);
    var i := 0;
    var done := false;
    while i < |rows| && !done
      invariant 0 <= i <= |rows|
      invariant WalkedTo(rows, symbols, tags, i, names, numeration, checkArray[..], kinds[..])
      invariant done ==> i == Visited(rows)
      invariant !done ==> i < Visited(rows) || |rows| == 0
    {
      names, numeration := VisitRow(rows, symbols, tags, i, kinds, checkArray, names, numeration);
      i := i + 1;
      done := AllAssigned(kinds[..]);
      AllAssignedIffVisited(rows, kinds[..], i);
    }
    check := checkArray[..];
  }

  // ----- Properties of the walk -----

  /**
    The walk names every site: once it stops, each site's name is the name of
    a row equal to its own, and its check value is that row.
  */
  lemma EverySiteNamed(rows: seq<seq<int>>, symbols: seq<string>, tags: seq<Tag>, j: nat)
    requires Grid(rows, |symbols|) && |rows| > 0 && j < |rows|
    ensures var l := LastMatch(rows, j, Visited(rows));
      && 0 <= l < |rows| && rows[l] == rows[j]
      && NamesAt(rows, symbols, tags, Visited(rows))[j] == KindName(symbols, tags, l)
      && CheckAt(rows, |symbols|, Visited(rows))[j] == l
  {
    AllNamedIffVisited(rows, Visited(rows));
  }

  /** Sites with equal rows get the same name and the same check value. */
  lemma SameRowSameKind(rows: seq<seq<int>>, symbols: seq<string>, tags: seq<Tag>, a: nat, b: nat)
    requires Grid(rows, |symbols|) && a < |rows| && b < |rows| && rows[a] == rows[b]
    ensures NamesAt(rows, symbols, tags, Visited(rows))[a] == NamesAt(rows, symbols, tags, Visited(rows))[b]
    ensures CheckAt(rows, |symbols|, Visited(rows))[a] == CheckAt(rows, |symbols|, Visited(rows))[b]
  {
    var t := Visited(rows);
    LastMatchOfEqualRows(rows, a, b, t);
    assert NamesAt(rows, symbols, tags, t)[a] == NamesAt(rows, symbols, tags, t)[b];
  }

  /** Equal rows have the same last match. */
  lemma {:induction false} LastMatchOfEqualRows(rows: seq<seq<int>>, a: nat, b: nat, t: nat)
    requires a < |rows| && b < |rows| && t <= |rows| && rows[a] == rows[b]
    ensures LastMatch(rows, a, t) == LastMatch(rows, b, t)
  {
    if t > 0 && rows[t - 1] != rows[a] {
      LastMatchOfEqualRows(rows, a, b, t - 1);
    }
  }

  /** Different rows give different numbers: row `l` is numbered `l` or `l + N`. */
  lemma NumbersDistinct(symbols: seq<string>, tags: seq<Tag>, l1: nat, l2: nat)
    requires l1 < |symbols| && l2 < |symbols| && l1 != l2
    ensures Number(symbols, tags, l1) != Number(symbols, tags, l2)
  {
  }

  /**
    When no chemical symbol contains a digit, sites with different rows get
    different names.
  */
  lemma DifferentRowsDifferentNames(rows: seq<seq<int>>, symbols: seq<string>, tags: seq<Tag>, a: nat, b: nat)
    requires Grid(rows, |symbols|) && a < |rows| && b < |rows| && rows[a] != rows[b]
    requires forall k :: 0 <= k < |symbols| ==> NoDigits(symbols[k])
    ensures NamesAt(rows, symbols, tags, Visited(rows))[a] != NamesAt(rows, symbols, tags, Visited(rows))[b]
  {
    EverySiteNamed(rows, symbols, tags, a);
    EverySiteNamed(rows, symbols, tags, b);
    var t := Visited(rows);
    var la, lb := LastMatch(rows, a, t), LastMatch(rows, b, t);
    NumbersDistinct(symbols, tags, la, lb);
    var na, nb := Number(symbols, tags, la), Number(symbols, tags, lb);
    if KindName(symbols, tags, la) == KindName(symbols, tags, lb) {
      SplitUnique(symbols[la], NatToString(na), symbols[lb], NatToString(nb));
      NatToStringInjective(na, nb);
      assert false;
    }
  }

  /** Without a tag of the form `symbol + number`, each row is numbered by its own index. */
  lemma UntaggedNumbers(symbols: seq<string>, tags: seq<Tag>, i: nat)
    requires i < |symbols|
    requires forall k :: 0 <= k < |tags| ==> tags[k] == NoTag
    ensures Number(symbols, tags, i) == i
  {
  }

  /** Every entry of the numeration is the number of a visited row. */
  lemma {:induction false} NumerationEntries(rows: seq<seq<int>>, symbols: seq<string>, tags: seq<Tag>, t: nat)
    requires (|rows| == 0 || |rows| == |symbols|) && t <= |rows|
    ensures forall x :: x in Numeration(rows, symbols, tags, t) ==>
              exists i :: 0 <= i < t && x == Number(symbols, tags, i)
  {
    if t > 0 {
      NumerationEntries(rows, symbols, tags, t - 1);
      var tail := Repeat(Number(symbols, tags, t - 1), CountMatches(rows, rows[t - 1], |rows|));
      forall x | x in Numeration(rows, symbols, tags, t)
        ensures exists i :: 0 <= i < t && x == Number(symbols, tags, i)
      {
        if x in tail {
          assert x == Number(symbols, tags, t - 1);
        } else {
          assert x in Numeration(rows, symbols, tags, t - 1);
        }
      }
    }
  }

  /** Once the walk stops, two sites have the same check value exactly when their rows are equal. */
  lemma CheckGroupsLikeRows(rows: seq<seq<int>>, n: nat, a: nat, b: nat)
    requires Grid(rows, n) && |rows| > 0 && a < |rows| && b < |rows|
    ensures CheckAt(rows, n, Visited(rows))[a] == CheckAt(rows, n, Visited(rows))[b] <==> rows[a] == rows[b]
  {
    var t := Visited(rows);
    AllNamedIffVisited(rows, t);
    assert LastMatch(rows, a, t) >= 0 && LastMatch(rows, b, t) >= 0;
    if rows[a] == rows[b] {
      assert LastMatch(rows, a, t) == LastMatch(rows, b, t);
    }
  }

  /**
    `[s.index(x) for x in s]`: the first occurrence of every entry. Of the
    tags, it is the list step 4 compares the check array with; of the rows, it
    is the check array a partition-respecting walk would record.
  */
  function FirstOccurrences<T(==)>(s: seq<T>): (f: seq<nat>)
    ensures |f| == |s|
  {
    seq(|s|, j requires 0 <= j < |s| => IndexOf(s, s[j]))
  }

  /** Two sequences partition their positions the same way. */
  ghost predicate SamePartition<A, B>(s: seq<A>, t: seq<B>) {
    |s| == |t| && forall a, b :: 0 <= a < |s| && 0 <= b < |s| ==> (s[a] == s[b] <==> t[a] == t[b])
  }

  /**
    Comparing first occurrences decides exactly whether the tags group the
    sites as the rows do.
  */
  lemma FirstOccurrencesIffSamePartition<A, B>(s: seq<A>, t: seq<B>)
    requires |s| == |t|
    ensures FirstOccurrences(s) == FirstOccurrences(t) <==> SamePartition(s, t)
  {
    if FirstOccurrences(s) == FirstOccurrences(t) {
      forall a, b | 0 <= a < |s| && 0 <= b < |s|
        ensures s[a] == s[b] <==> t[a] == t[b]
      {
        assert FirstOccurrences(s)[a] == IndexOf(s, s[a]) && FirstOccurrences(s)[b] == IndexOf(s, s[b]);
        assert FirstOccurrences(t)[a] == IndexOf(t, t[a]) && FirstOccurrences(t)[b] == IndexOf(t, t[b]);
      }
    }
    if SamePartition(s, t) {
      forall j | 0 <= j < |s|
        ensures FirstOccurrences(s)[j] == FirstOccurrences(t)[j]
      {
        var f, g := IndexOf(s, s[j]), IndexOf(t, t[j]);
        assert t[f] == t[j];
        assert s[g] == s[j];
      }
    }
  }

  /** Three positions split as {0, 1} and {2} are partitioned alike in both sequences. */
  lemma TwoGroupsOfThree<A, B>(s: seq<A>, t: seq<B>)
    requires |s| == |t| == 3 && s[0] == s[1] && s[1] != s[2] && t[0] == t[1] && t[1] != t[2]
    ensures SamePartition(s, t)
  {
  }

  /** Two tags have the same first occurrence exactly when they are equal. */
  lemma FirstOccurrencesGroup<T>(tags: seq<T>, a: nat, b: nat)
    requires a < |tags| && b < |tags|
    ensures FirstOccurrences(tags)[a] == FirstOccurrences(tags)[b] <==> tags[a] == tags[b]
  {
    assert FirstOccurrences(tags)[a] == IndexOf(tags, tags[a]);
    assert FirstOccurrences(tags)[b] == IndexOf(tags, tags[b]);
  }

  /**
    The check as it should be: record each site's first matching row.
    It accepts the tags exactly when they group the sites as the rows do.
  */
  lemma CorrectedCheckIffSamePartition(rows: seq<seq<int>>, tags: seq<Tag>)
    requires |rows| == |tags|
    ensures FirstOccurrences(rows) == FirstOccurrences(tags) <==> SamePartition(rows, tags)
  {
    FirstOccurrencesIffSamePartition(rows, tags);
  }

  /**
    The check as written keeps the last visit: when sites 0 and 1 share a row
    and site 2 has another, the tags A, A, B group the sites the same way, yet
    the check array [1, 1, 2] differs from the tags' first occurrences
    [0, 0, 2].
  */
  lemma LastVisitCheckRejectsConsistentTags(rows: seq<seq<int>>)
    requires |rows| == 3 && Uniform(rows) && rows[0] == rows[1] && rows[1] != rows[2]
    ensures var tags := [Named("A"), Named("A"), Named("B")];
      && SamePartition(rows, tags)
      && CheckAt(rows, 3, Visited(rows)) == [1, 1, 2]
      && FirstOccurrences(tags) == [0, 0, 2]
  {
    var tags := [Named("A"), Named("A"), Named("B")];
    TwoGroupsWalk(rows);
    assert tags[0] == tags[1] && tags[1] != tags[2];
    TwoGroupsOfThree(rows, tags);
    assert IndexOf(tags, tags[1]) == 0 && IndexOf(tags, tags[2]) == 2;
  }

  /** Rows split as {0, 1} and {2}: the walk visits all three rows and each site's last visit is 1, 1, 2. */
  lemma TwoGroupsWalk(rows: seq<seq<int>>)
    requires |rows| == 3 && rows[0] == rows[1] && rows[1] != rows[2]
    ensures Visited(rows) == 3
    ensures LastMatch(rows, 0, 3) == 1 && LastMatch(rows, 1, 3) == 1 && LastMatch(rows, 2, 3) == 2
    ensures CountMatches(rows, rows[0], 3) == 2 && CountMatches(rows, rows[1], 3) == 2 && CountMatches(rows, rows[2], 3) == 1
  {
    assert IndexOf(rows, rows[0]) == 0 && IndexOf(rows, rows[1]) == 0 && IndexOf(rows, rows[2]) == 2;
    assert CountMatches(rows, rows[0], 2) == 2;
    assert CountMatches(rows, rows[2], 2) == 0;
  }

  /**
    A walk by hand: sites Li, Li, Cu where the two Li sites share a row and
    the Cu site has another. Row 0 names both Li sites, row 1 names them
    again and row 2 names the Cu site, so the names are Li1, Li1, Cu2.
  */
  lemma WalkExampleNames(rows: seq<seq<int>>)
    requires |rows| == 3 && rows[0] == rows[1] && rows[1] != rows[2]
    ensures NamesAt(rows, ["Li", "Li", "Cu"], [NoTag, NoTag, NoTag], Visited(rows)) == ["Li1", "Li1", "Cu2"]
  {
    var symbols, tags := ["Li", "Li", "Cu"], [NoTag, NoTag, NoTag];
    TwoGroupsWalk(rows);
    UntaggedNumbers(symbols, tags, 1);
    UntaggedNumbers(symbols, tags, 2);
    assert NatToString(1) == "1" && NatToString(2) == "2";
    assert KindName(symbols, tags, 1) == "Li1" && KindName(symbols, tags, 2) == "Cu2";
    var names := NamesAt(rows, symbols, tags, 3);
    assert names[0] == "Li1" && names[1] == "Li1" && names[2] == "Cu2";
  }

  /**
    The same walk appends one number per member per visit: 0 twice for row 0,
    1 twice for row 1, 2 once for row 2.
  */
  lemma WalkExampleNumeration(rows: seq<seq<int>>)
    requires |rows| == 3 && rows[0] == rows[1] && rows[1] != rows[2]
    ensures Numeration(rows, ["Li", "Li", "Cu"], [NoTag, NoTag, NoTag], Visited(rows)) == [0, 0, 1, 1, 2]
  {
    var symbols, tags := ["Li", "Li", "Cu"], [NoTag, NoTag, NoTag];
    TwoGroupsWalk(rows);
    UntaggedNumbers(symbols, tags, 0);
    UntaggedNumbers(symbols, tags, 1);
    UntaggedNumbers(symbols, tags, 2);
    assert Repeat(0, 2) == [0, 0] && Repeat(1, 2) == [1, 1] && Repeat(2, 1) == [2];
    var n0 := Numeration(rows, symbols, tags, 0);
    assert n0 == [];
    var n1 := Numeration(rows, symbols, tags, 1);
    assert n1 == n0 + Repeat(0, 2);
    assert n1 == [0, 0];
    var n2 := Numeration(rows, symbols, tags, 2);
    assert n2 == n1 + [1, 1];
    var n3 := Numeration(rows, symbols, tags, 3);
    assert n3 == n2 + [2];
  }

  /**
    Pairwise distinct rows (every threshold 0, say): the walk visits every row
    once, each site is named after its own index and the numeration lists the
    numbers of the sites in order.
  */
  lemma DistinctRowsOneKindPerSite(rows: seq<seq<int>>, symbols: seq<string>, tags: seq<Tag>)
    requires Grid(rows, |symbols|) && |rows| > 0
    requires forall a, b :: 0 <= a < b < |rows| ==> rows[a] != rows[b]
    ensures Visited(rows) == |rows|
    ensures forall j :: 0 <= j < |rows| ==> NamesAt(rows, symbols, tags, Visited(rows))[j] == KindName(symbols, tags, j)
    ensures Numeration(rows, symbols, tags, Visited(rows)) == seq(|rows|, i requires 0 <= i < |rows| => Number(symbols, tags, i))
  {
    var n := |rows|;
    DistinctRowsWalk(rows);
    DistinctRowsNumeration(rows, symbols, tags, n);
    assert Numeration(rows, symbols, tags, n) == seq(n, i requires 0 <= i < n => Number(symbols, tags, i));
  }

  /** Among pairwise distinct rows every row is its own first and last match and matches once. */
  lemma DistinctRowsWalk(rows: seq<seq<int>>)
    requires |rows| > 0
    requires forall a, b :: 0 <= a < b < |rows| ==> rows[a] != rows[b]
    ensures Visited(rows) == |rows|
    ensures forall j :: 0 <= j < |rows| ==> LastMatch(rows, j, |rows|) == j
    ensures forall i :: 0 <= i < |rows| ==> CountMatches(rows, rows[i], |rows|) == 1
  {
    var n := |rows|;
    assert IndexOf(rows, rows[n - 1]) == n - 1 by {
      var f := IndexOf(rows, rows[n - 1]);
      assert rows[f] == rows[n - 1];
    }
    forall j | 0 <= j < n
      ensures LastMatch(rows, j, n) == j
    {
      var l := LastMatch(rows, j, n);
      assert rows[l] == rows[j] || l < j;
    }
    forall i | 0 <= i < n
      ensures CountMatches(rows, rows[i], n) == 1
    {
      CountOnlyItself(rows, i, n);
    }
  }

  lemma {:induction false} DistinctRowsNumeration(rows: seq<seq<int>>, symbols: seq<string>, tags: seq<Tag>, t: nat)
    requires |rows| == |symbols| && t <= |rows|
    requires forall i :: 0 <= i < |rows| ==> CountMatches(rows, rows[i], |rows|) == 1
    ensures |Numeration(rows, symbols, tags, t)| == t
    ensures forall i :: 0 <= i < t ==> Numeration(rows, symbols, tags, t)[i] == Number(symbols, tags, i)
  {
    if t > 0 {
      DistinctRowsNumeration(rows, symbols, tags, t - 1);
      var x := Number(symbols, tags, t - 1);
      var c := CountMatches(rows, rows[t - 1], |rows|);
      assert c == 1;
      assert Repeat(x, c) == [x];
      assert Numeration(rows, symbols, tags, t) == Numeration(rows, symbols, tags, t - 1) + [x];
    }
  }

  /** Among pairwise distinct rows, row `i` matches itself only. */
  lemma {:induction false} CountOnlyItself(rows: seq<seq<int>>, i: nat, j: nat)
    requires i < |rows| && j <= |rows|
    requires forall a, b :: 0 <= a < b < |rows| ==> rows[a] != rows[b]
    ensures CountMatches(rows, rows[i], j) == if i < j then 1 else 0
  {
    if j > 0 {
      CountOnlyItself(rows, i, j - 1);
    }
  }
}
