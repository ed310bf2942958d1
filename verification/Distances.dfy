/** The free functions of src/Buffer.cc that measure a list between two of its cells. */
module Distances {
  import opened Cells
  import opened TextModel
  import opened Lines
  import opened Rows

  method CountLines(cons: Cons?, ghost s: seq<Cons>, ghost i: nat) returns (count: nat)
    requires Chain(s, null) && i <= |s| && cons == At(s, i, null)
    ensures count == Newlines(Text(s), i, |s|)
  {
    var c := cons;
    count := 0;
    ghost var m, t := i, Text(s);
    while c != null
      invariant m <= |s| && c == At(s, m, null)
      invariant count + Newlines(t, m, |s|) == Newlines(t, i, |s|)
      decreases |s| - m
    {
      assert t[m] == c.car;
      if c.car == LINEFEED {
        count := count + 1;
      }
      c := c.cdr;
      m := m + 1;
    }
  }

  /** `s` is the list from `one`, and `u` that from `two` if `one` is NULL.  When `two` does
      not follow, the second loop looks at its cdr again and again, and ends only if that is
      `one` or NULL; what it gives is then one more than the lines between, or -1. */
  method LineDistance(one: Cons?, two: Cons?, ghost s: seq<Cons>, ghost u: seq<Cons>) returns (count: int)
    requires Chain(s, null) && one == At(s, 0, null)
    requires one == null ==> Chain(u, null) && two == At(u, 0, null)
    requires one == null || two == null || two in s || two.cdr == one || two.cdr == null
    ensures count == if two == null then Newlines(Text(s), 0, |s|)
                     else if one == null then Newlines(Text(u), 0, |u|)
                     else if two in s then Newlines(Text(s), 0, Index(s, two))
                     else if two.cdr == one then Newlines([two.car], 0, 1) + 1
                     else -1
  {
    if two == null {
      count := CountLines(one, s, 0);
      return;
    }
    if one == null {
      count := CountLines(two, u, 0);
      return;
    }
    ChainDistinct(s);
    var tem: Cons? := one;
    count := 0;
    ghost var m, j, t := 0, Index(s, two), Text(s);
    assert t[m] == one.car;
    var last := one.car;
    while true
      invariant m < |s| && tem == s[m] && last == t[m]
      invariant m <= j && count + Newlines(t, m, j) == Newlines(t, 0, j)
      decreases |s| - m
    {
      if tem == two {
        return;
      }
      tem := tem.cdr;
      if tem == null {
        break;
      }
      m := m + 1;
      if last == LINEFEED {
        count := count + 1;
      }
      assert t[m] == tem.car;
      last := tem.car;
    }
    last := two.car;
    // The first round ends it.
    assert two.cdr == one || two.cdr == null;
    if two.cdr == one {
      count := if last == LINEFEED then 2 else 1;
    } else {
      count := -1;
    }
  }

  /** The loop that both halves of window_line_distance share: it counts row ends until
      it meets `two` or runs off the list. */
  method CountRows(one: Cons, two: Cons?, cols: int, ghost s: seq<Cons>, ghost i: nat, ghost j: nat)
    returns (found: bool, count: nat)
    requires Chain(s, null) && i < |s| && j <= |s| && one == s[i] && two == At(s, j, null)
    ensures found <==> i <= j
    ensures found ==> count == RowDistance(Text(s), i, j, cols)
  {
    var tem: Cons? := one;
    var col := cols;
    count := 0;
    ghost var m, t, k := i, Text(s), if j == |s| then |s| - 1 else j;
    assert t[m] == one.car;
    var last := one.car;
    SameIndex(s, m, j);
    while tem != two
      invariant m < |s| && tem == s[m] && last == t[m]
      invariant tem == two <==> m == j
      invariant i <= j ==> m <= k && count + RowSteps(t, m, k, col, cols) == RowSteps(t, i, k, cols, cols)
      invariant j < i ==> j < m
      decreases |s| - m
    {
      tem := tem.cdr;
      if tem == null {
        // The end of the buffer is a row of its own.
        return two == null, count + 1;
      }
      SameIndex(s, m + 1, |s|);
      SameIndex(s, m + 1, j);
      col := col - 1;
      if col == 0 || last == LINEFEED {
        col := cols;
        count := count + 1;
      }
      m := m + 1;
      assert t[m] == tem.car;
      last := tem.car;
    }
    found := true;
  }

  /** `one` is not NULL unless `two` is: with only `one` at the end the source follows NULL. */
  method WindowLineDistance(one: Cons?, two: Cons?, cols: int, ghost s: seq<Cons>, ghost i: nat, ghost j: nat)
    returns (rows: int)
    requires Chain(s, null) && i <= |s| && j <= |s| && one == At(s, i, null) && two == At(s, j, null)
    requires one == null ==> two == null
    ensures rows == RowDistance(Text(s), i, j, cols)
  {
    SameIndex(s, i, j);
    if one == null {
      return 0;
    }
    var found: bool;
    found, rows := CountRows(one, two, cols, s, i, j);
    if !found {
      found, rows := CountRows(two, one, cols, s, j, i);
      rows := -rows;
    }
  }
}
