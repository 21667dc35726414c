/** The window list of kernel/core/gui/wm.c: a doubly linked list with head (front) and tail (back). */
module WindowList {
  class Window {
    var prev: Window?
    var next: Window?

    constructor ()
      ensures prev == null && next == null
    {
      prev, next := null, null;
    }
  }

  /** `s` without its element at `k`. */
  function Without<T>(s: seq<T>, k: nat): (r: seq<T>)
    requires k < |s|
    ensures |r| == |s| - 1
    ensures forall i {:trigger r[i]} :: 0 <= i < |r| ==> r[i] == s[if i < k then i else i + 1]
  {
    s[..k] + s[k + 1..]
  }

  lemma NotIn(s: seq<Window>, k: nat)
    requires k < |s| && forall i, j :: 0 <= i < j < |s| ==> s[i] != s[j]
    ensures s[k] !in Without(s, k)
    ensures k > 0 ==> Without(s, k) != [] && Without(s, k)[0] == s[0]
  {
  }

  lemma FrontAlready(s: seq<Window>)
    requires s != []
    ensures [s[0]] + Without(s, 0) == s
  {
  }

  function Nth(s: seq<Window>, i: int): Window? {
    if 0 <= i < |s| then s[i] else null
  }

  function Reverse<T>(s: seq<T>): (r: seq<T>)
    ensures |r| == |s| && forall i :: 0 <= i < |s| ==> r[i] == s[|s| - 1 - i]
  {
    seq(|s|, i requires 0 <= i < |s| => s[|s| - 1 - i])
  }

  datatype Request = Open | Front(k: nat) | Close(k: nat)

  /** The list after a request, by what it means. */
  ghost predicate Follows(before: seq<Window>, r: Request, after: seq<Window>) {
    match r
    case Open => |after| == |before| + 1 && after[1..] == before && after[0] !in before
    case Front(k) => after == if k < |before| then [before[k]] + Without(before, k) else before
    case Close(k) => after == if k < |before| then Without(before, k) else before
  }

  class Manager {
    var head: Window?
    var tail: Window?
    ghost var list: seq<Window>      // front to back

    ghost predicate Valid()
      reads this, list
    {
      && head == Nth(list, 0) && tail == Nth(list, |list| - 1)
      && (forall i, j :: 0 <= i < j < |list| ==> list[i] != list[j])
      && forall i {:trigger Linked(i)} :: 0 <= i < |list| ==> Linked(i)
    }

    ghost predicate Linked(i: nat)
      reads this, list
    {
      i < |list| && list[i].next == Nth(list, i + 1) && list[i].prev == Nth(list, i - 1)
    }

    constructor ()
      ensures Valid() && list == []
    {
      head, tail, list := null, null, [];
    }

    /** wm_alloc_window: a new window at the front. */
    method AllocWindow() returns (win: Window)
      requires Valid()
      modifies this, list
      ensures Valid() && fresh(win) && list == [win] + old(list)
    {
      win := new Window();
      assert list != [] ==> Linked(0);
      win.next := head;
      if head != null {
        head.prev := win;
      }
      head := win;
      if tail == null {
        tail := win;
      }
      list := [win] + list;
      forall i | 0 <= i < |list| ensures Linked(i) {
        if i > 0 { assert old(Linked(i - 1)); }
      }
    }

    /** wm_bring_to_front: the window moves to the front, the others keep their order. */
    method BringToFront(win: Window?, ghost k: nat)
      requires Valid() && (win != null ==> k < |list| && list[k] == win)
      modifies this, list
      ensures Valid()
      ensures list == if win == null then old(list) else [win] + Without(old(list), k)
    {
      hide Without;
      if win == null {
        return;
      }
      if win == head {
        FrontAlready(list);
        return;
      }
      NotIn(list, k);
      Detach(win, k);
      PushFront(win);
    }

    /** The first half of wm_bring_to_front: take a window that is not the front one out of the list. */
    method Detach(win: Window, ghost k: nat)
      requires Valid() && 0 < k < |list| && list[k] == win
      modifies this, list
      ensures Valid() && list == Without(old(list), k)
    {
      ghost var before := list;
      assert Linked(k) && Linked(k - 1) && (k + 1 < |list| ==> Linked(k + 1));
      if win.prev != null {
        win.prev.next := win.next;
      }
      if win.next != null {
        win.next.prev := win.prev;
      }
      if win == tail {
        tail := win.prev;
      }
      list := Without(before, k);
      forall i | 0 <= i < |list| ensures Linked(i) {
        assert old(Linked(if i < k then i else i + 1));
      }
    }

    /** The second half: put it in at the front. */
    method PushFront(win: Window)
      requires Valid() && list != [] && win !in list
      modifies this, list, win
      ensures Valid() && list == [win] + old(list)
    {
      assert Linked(0);
      win.next := head;
      win.prev := null;
      if head != null {
        head.prev := win;
      }
      head := win;
      list := [win] + list;
      forall i | 0 <= i < |list| ensures Linked(i) {
        if i > 0 { assert old(Linked(i - 1)); }
      }
    }

    /** wm_close_window: exactly that window leaves the list. */
    method CloseWindow(win: Window?, ghost k: nat)
      requires Valid() && (win != null ==> k < |list| && list[k] == win)
      modifies this, list
      ensures Valid()
      ensures list == if win == null then old(list) else Without(old(list), k)
    {
      if win == null {
        return;
      }
      ghost var before := list;
      assert Linked(k) && (k > 0 ==> Linked(k - 1)) && (k + 1 < |list| ==> Linked(k + 1));
      if win.prev != null {
        win.prev.next := win.next;
      }
      if win.next != null {
        win.next.prev := win.prev;
      }
      if win == head {
        head := win.next;
      }
      if win == tail {
        tail := win.prev;
      }
      list := Without(before, k);
      forall i | 0 <= i < |list| ensures Linked(i) {
        assert old(Linked(if i < k then i else i + 1));
      }
    }

    /** Walking next from head and prev from tail meets the same windows, each once, in opposite
        orders. */
    method Walk() returns (forward: seq<Window>, backward: seq<Window>)
      requires Valid()
      ensures forward == list && backward == Reverse(forward)
      ensures forall i, j :: 0 <= i < j < |forward| ==> forward[i] != forward[j]
    {
      forward, backward := [], [];
      var w := head;
      while w != null
        invariant |forward| <= |list| && forward == list[..|forward|] && w == Nth(list, |forward|)
        decreases |list| - |forward|
      {
        assert Linked(|forward|);
        forward := forward + [w];
        w := w.next;
      }
      w := tail;
      while w != null
        invariant |backward| <= |list| && w == Nth(list, |list| - 1 - |backward|)
        invariant forall i :: 0 <= i < |backward| ==> backward[i] == list[|list| - 1 - i]
        decreases |list| - |backward|
      {
        assert Linked(|list| - 1 - |backward|);
        backward := backward + [w];
        w := w.prev;
      }
    }

    /** Any sequence of open, bring-to-front and close requests, the window of the last two counted from
        the front; `history` holds the list after each request. */
    method Run(requests: seq<Request>) returns (ghost history: seq<seq<Window>>)
      requires Valid()
      modifies this, list
      ensures Valid() && |history| == |requests| + 1 && history[0] == old(list) && history[|requests|] == list
      ensures forall n :: 0 <= n < |requests| ==> Follows(history[n], requests[n], history[n + 1])
    {
      hide Without, Nth;
      history := [list];
      var n := 0;
      while n < |requests|
        invariant 0 <= n <= |requests| && Valid() && |history| == n + 1 && history[0] == old(list) && history[n] == list
        invariant forall i :: 0 <= i < |list| ==> list[i] in old(list) || fresh(list[i])
        invariant forall i :: 0 <= i < n ==> Follows(history[i], requests[i], history[i + 1])
      {
        Serve(requests[n]);
        history := history + [list];
        n := n + 1;
      }
    }

    method Serve(request: Request)
      requires Valid()
      modifies this, list
      ensures Valid() && Follows(old(list), request, list)
      ensures forall i :: 0 <= i < |list| ==> list[i] in old(list) || fresh(list[i])
    {
      match request {
        case Open =>
          var win := AllocWindow();
          assert list[1..] == old(list);
        case Front(k) =>
          var w := At(k);
          BringToFront(w, k);
        case Close(k) =>
          var w := At(k);
          CloseWindow(w, k);
      }
    }

    /** The `k`-th window from the front, or null. */
    method At(k: nat) returns (w: Window?)
      requires Valid()
      ensures w == Nth(list, k)
    {
      w := head;
      var i := 0;
      while i < k && w != null
        invariant 0 <= i <= k && w == Nth(list, i)
      {
        assert Linked(i);
        w := w.next;
        i := i + 1;
      }
    }
  }
}
