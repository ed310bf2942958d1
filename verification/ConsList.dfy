/** The list functions of include/Cons.h, as loops over cells. */
module ConsList {
  import opened Cells

  method Length(cons: Cons?, ghost s: seq<Cons>) returns (len: nat)
    requires Chain(s, null) && cons == At(s, 0, null)
    ensures len == |s|
  {
    len := 0;
    var c := cons;
    while c != null
      invariant len <= |s| && c == At(s, len, null)
      decreases |s| - len
    {
      c := c.cdr;
      len := len + 1;
    }
  }

  /** The last cell of a nonempty list. */
  method Last(cons: Cons, ghost s: seq<Cons>) returns (r: Cons)
    requires Chain(s, null) && |s| > 0 && cons == s[0]
    ensures r == s[|s| - 1]
  {
    r := cons;
    ghost var i := 0;
    while r.cdr != null
      invariant i < |s| && r == s[i]
      decreases |s| - i
    {
      r := r.cdr;
      i := i + 1;
    }
  }

  /** The walk of two pointers, `list` leading and `r` trailing it by `count` cells.
      `d` is the distance from the head to the target. */
  method FindBut(list: Cons?, cons: Cons?, count: int, ghost s: seq<Cons>, ghost d: nat)
    returns (r: Cons?, left: int)
    requires Chain(s, null) && list == At(s, 0, null)
    requires d <= |s| && cons == At(s, d, null)
    requires count >= 0
    ensures r == At(s, if count < d then d - count else 0, null)
    ensures left == if count < d then 0 else count - d
  {
    left := count;
    if count == 0 {
      return cons, left;
    }
    ChainDistinct(s);
    var lead := list;
    r := list;
    ghost var i := 0;
    while lead != cons
      invariant i <= d && lead == At(s, i, null)
      invariant left == if count < i then 0 else count - i
      invariant r == At(s, if count < i then i - count else 0, null)
      decreases d - i
    {
      lead := lead.cdr;
      if left != 0 {
        left := left - 1;
      } else {
        r := r.cdr;
      }
      i := i + 1;
    }
    assert i == d;
  }

  /** The number of cells from `one` to `two`, if it comes there; if not, 1 if `two` comes
      right before `one`.  The second loop looks at the cdr of `two` again and again, so
      that it ends only if that is `one` or NULL. */
  method Distance(one: Cons?, two: Cons?, ghost s: seq<Cons>) returns (count: int)
    requires Chain(s, null) && one == At(s, 0, null)
    requires two == null || two in s || two.cdr == one || two.cdr == null
    ensures count == if two in s then Index(s, two) else if two != null && two.cdr == one then 1 else -1
  {
    ChainDistinct(s);
    ghost var j := Index(s, two);
    var tem := one;
    count := 0;
    while tem != null
      invariant 0 <= count <= j && tem == At(s, count, null)
      decreases |s| - count
    {
      if tem == two {
        return;
      }
      tem := tem.cdr;
      count := count + 1;
    }
    tem := two;
    count := 1;
    while tem != null
      invariant tem != null ==> tem == two && count == 1
      invariant tem == null ==> two == null || two.cdr != one
      decreases tem != null
    {
      tem := two.cdr;
      if tem == one {
        return;
      }
      count := count + 1;
    }
    count := -1;
  }

  /** A copy shares no cell with anything that existed before. */
  method CopyList(cons: Cons?, ghost s: seq<Cons>) returns (r: Cons?, ghost t: seq<Cons>)
    requires Chain(s, null) && cons == At(s, 0, null)
    ensures Chain(t, null) && r == At(t, 0, null)
    ensures forall i :: 0 <= i < |t| ==> fresh(t[i])
    ensures Text(t) == Text(s)
    decreases |s|
  {
    if cons == null {
      return null, [];
    }
    ChainSuffix(s, 1, null);
    var rest, u := CopyList(cons.cdr, s[1..]);
    var head := new Cons(cons.car, rest);
    r, t := head, [head] + u;
    ChainJoin([head], u, null);
    assert Text(s) == [cons.car] + Text(s[1..]);
  }
}
