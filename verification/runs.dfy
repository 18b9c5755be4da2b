/**
 The collecting loop three of the parser's extractors share: lines are read in order,
 each either a divider, a line passed over, or a data line contributing one item, and a
 divider ends the loop once at least one item has been kept.
 */
module Runs {

  /** How the collecting loop treats one line. */
  datatype LineKind<+T> = Divider | Ignored | Data(item: T)

  /** The loop from line `i`, `acc` holding the items kept so far. */
  function Collect<T>(cls: seq<LineKind<T>>, i: nat, acc: seq<T>): seq<T>
    requires i <= |cls|
    decreases |cls| - i
  {
    if i == |cls| then acc
    else
      match cls[i]
      case Divider => if |acc| > 0 then acc else Collect(cls, i + 1, acc)
      case Ignored => Collect(cls, i + 1, acc)
      case Data(x) => Collect(cls, i + 1, acc + [x])
  }

  /** One step of the loop, by the kind of line `i`. */
  lemma CollectStep<T>(cls: seq<LineKind<T>>, i: nat, acc: seq<T>)
    requires i < |cls|
    ensures cls[i].Data? ==> Collect(cls, i, acc) == Collect(cls, i + 1, acc + [cls[i].item])
    ensures cls[i].Divider? && |acc| > 0 ==> Collect(cls, i, acc) == acc
    ensures !cls[i].Data? && !(cls[i].Divider? && |acc| > 0) ==> Collect(cls, i, acc) == Collect(cls, i + 1, acc)
  {
  }

  /** The items of the data lines among `cls`, in order, ignoring where the loop stops. */
  function DataIn<T>(cls: seq<LineKind<T>>): (r: seq<T>)
    ensures |r| <= |cls|
  {
    if cls == [] then []
    else
      match cls[0]
      case Data(x) => [x] + DataIn(cls[1..])
      case _ => DataIn(cls[1..])
  }

  /** The first data line at or after `i`, or `|cls|`. */
  function FirstData<T>(cls: seq<LineKind<T>>, i: nat): (r: nat)
    requires i <= |cls|
    ensures i <= r <= |cls|
    ensures forall j :: i <= j < r ==> !cls[j].Data?
    ensures r < |cls| ==> cls[r].Data?
    decreases |cls| - i
  {
    if i == |cls| || cls[i].Data? then i else FirstData(cls, i + 1)
  }

  /** The first divider at or after `i`, or `|cls|`. */
  function NextDivider<T>(cls: seq<LineKind<T>>, i: nat): (r: nat)
    requires i <= |cls|
    ensures i <= r <= |cls|
    ensures forall j :: i <= j < r ==> !cls[j].Divider?
    ensures r < |cls| ==> cls[r].Divider?
    decreases |cls| - i
  {
    if i == |cls| || cls[i].Divider? then i else NextDivider(cls, i + 1)
  }

  /** The loop keeps a property every data item and every item already kept has. */
  lemma {:induction false} CollectKeeps<T>(cls: seq<LineKind<T>>, i: nat, acc: seq<T>, p: T -> bool)
    requires i <= |cls|
    requires forall k :: 0 <= k < |cls| && cls[k].Data? ==> p(cls[k].item)
    requires forall k :: 0 <= k < |acc| ==> p(acc[k])
    ensures forall k :: 0 <= k < |Collect(cls, i, acc)| ==> p(Collect(cls, i, acc)[k])
    decreases |cls| - i
  {
    if i < |cls| {
      match cls[i]
      case Divider => if |acc| == 0 { CollectKeeps(cls, i + 1, acc, p); }
      case Ignored => CollectKeeps(cls, i + 1, acc, p);
      case Data(x) => AppendKeeps(acc, x, p); CollectKeeps(cls, i + 1, acc + [x], p);
    }
  }

  lemma AppendKeeps<T>(acc: seq<T>, x: T, p: T -> bool)
    requires forall k :: 0 <= k < |acc| ==> p(acc[k])
    requires p(x)
    ensures forall k :: 0 <= k < |acc + [x]| ==> p((acc + [x])[k])
  {
  }

  /** Before the first item is kept, the loop passes over every line. */
  lemma {:induction false} CollectSkipsToFirst<T>(cls: seq<LineKind<T>>, i: nat)
    requires i <= |cls|
    ensures Collect(cls, i, []) == Collect(cls, FirstData(cls, i), [])
    decreases |cls| - i
  {
    if i < |cls| && !cls[i].Data? {
      CollectSkipsToFirst(cls, i + 1);
    }
  }

  /** Once an item is kept, the loop takes the items up to the next divider. */
  lemma {:induction false} CollectAfterFirst<T>(cls: seq<LineKind<T>>, i: nat, acc: seq<T>)
    requires i <= |cls| && |acc| > 0
    ensures Collect(cls, i, acc) == acc + DataIn(cls[i..NextDivider(cls, i)])
    decreases |cls| - i
  {
    var e := NextDivider(cls, i);
    if i == e {
      assert cls[i..e] == [];
    } else {
      SliceHead(cls, i, e);
      assert NextDivider(cls, i + 1) == e;
      match cls[i]
      case Data(x) =>
        CollectAfterFirst(cls, i + 1, acc + [x]);
        DataInCons(cls[i..e]);
        AppendAssoc(acc, x, DataIn(cls[i + 1..e]));
      case Ignored =>
        CollectAfterFirst(cls, i + 1, acc);
        DataInCons(cls[i..e]);
    }
  }

  lemma SliceHead<T>(cls: seq<T>, i: nat, e: nat)
    requires i < e <= |cls|
    ensures cls[i..e][0] == cls[i] && cls[i..e][1..] == cls[i + 1..e]
  {
  }

  /** The items of a non-empty run: its first line's item, if any, then the rest's. */
  lemma DataInCons<T>(cls: seq<LineKind<T>>)
    requires |cls| > 0
    ensures DataIn(cls) == (if cls[0].Data? then [cls[0].item] else []) + DataIn(cls[1..])
  {
  }

  lemma AppendAssoc<T>(acc: seq<T>, x: T, rest: seq<T>)
    ensures acc + [x] + rest == acc + ([x] + rest)
  {
  }

  /** The items of the data lines from the first data line at or after `i` up to the
      next divider, in input order. */
  function Run<T>(cls: seq<LineKind<T>>, i: nat): seq<T>
    requires i <= |cls|
  {
    var k := FirstData(cls, i);
    if k == |cls| then [] else DataIn(cls[k..NextDivider(cls, k + 1)])
  }

  /** The loop keeps exactly the run of items from the first data line. */
  lemma CollectRun<T>(cls: seq<LineKind<T>>, i: nat)
    requires i <= |cls|
    ensures Collect(cls, i, []) == Run(cls, i)
  {
    var k := FirstData(cls, i);
    CollectSkipsToFirst(cls, i);
    if k < |cls| {
      CollectFirstItem(cls, k);
      var e := NextDivider(cls, k + 1);
      CollectAfterFirst(cls, k + 1, [cls[k].item]);
      SliceHead(cls, k, e);
      DataInCons(cls[k..e]);
    }
  }

  lemma CollectFirstItem<T>(cls: seq<LineKind<T>>, k: nat)
    requires k < |cls| && cls[k].Data?
    ensures Collect(cls, k, []) == Collect(cls, k + 1, [cls[k].item])
  {
    assert [] + [cls[k].item] == [cls[k].item];
  }

  /** `f` applied to every element of `xs`. */
  function MapSeq<A, B>(f: A -> B, xs: seq<A>): (r: seq<B>)
    ensures |r| == |xs| && forall k {:trigger r[k]} :: 0 <= k < |xs| ==> r[k] == f(xs[k])
  {
    seq(|xs|, k requires 0 <= k < |xs| => f(xs[k]))
  }

  lemma MapSlice<A, B>(f: A -> B, xs: seq<A>, i: nat, e: nat)
    requires i < e <= |xs|
    ensures MapSeq(f, xs[i..e]) == [f(xs[i])] + MapSeq(f, xs[i + 1..e])
  {
    assert xs[i..e][0] == xs[i];
    assert forall k :: 1 <= k < e - i ==> xs[i..e][k] == xs[i + 1..e][k - 1];
  }

  /** The first index at or after `i` whose element `keep` rejects, or `|xs|`. */
  function RunEnd<T>(xs: seq<T>, i: nat, keep: T -> bool): (r: nat)
    requires i <= |xs|
    ensures i <= r <= |xs|
    decreases |xs| - i
  {
    if i < |xs| && keep(xs[i]) then RunEnd(xs, i + 1, keep) else i
  }

  /** `keep` holds on every element of the run, and fails on the element that ends it. */
  lemma {:induction false} RunEndStops<T>(xs: seq<T>, i: nat, keep: T -> bool)
    requires i <= |xs|
    ensures forall k :: i <= k < RunEnd(xs, i, keep) ==> keep(xs[k])
    ensures RunEnd(xs, i, keep) < |xs| ==> !keep(xs[RunEnd(xs, i, keep)])
    decreases |xs| - i
  {
    if i < |xs| && keep(xs[i]) {
      RunEndStops(xs, i + 1, keep);
    }
  }

  /** The loop that, from index `i`, folds `push` over the elements `keep` accepts and
      stops at the first one it rejects: the value built and the index it stopped at.
      Started past the end it returns at once. */
  function TakeRun<T, A>(xs: seq<T>, i: nat, a: A, keep: T -> bool, push: (A, T) -> A): (r: (A, nat))
    ensures i <= r.1
    ensures i <= |xs| ==> r.1 <= |xs|
    ensures i >= |xs| ==> r == (a, i)
    decreases |xs| - i
  {
    if i < |xs| && keep(xs[i]) then TakeRun(xs, i + 1, push(a, xs[i]), keep, push) else (a, i)
  }

  /** `push` folded over `ys` from the left, starting from `a`. */
  function PushEach<T, A>(a: A, ys: seq<T>, push: (A, T) -> A): A
    decreases |ys|
  {
    if ys == [] then a else PushEach(push(a, ys[0]), ys[1..], push)
  }

  /** The loop pushes exactly the run of accepted elements from `i` and stops where
      the run ends. */
  lemma {:induction false} TakeRunIsRun<T, A>(xs: seq<T>, i: nat, a: A, keep: T -> bool, push: (A, T) -> A)
    requires i <= |xs|
    ensures TakeRun(xs, i, a, keep, push).0 == PushEach(a, xs[i..RunEnd(xs, i, keep)], push)
    ensures TakeRun(xs, i, a, keep, push).1 == RunEnd(xs, i, keep)
    decreases |xs| - i
  {
    var e := RunEnd(xs, i, keep);
    if i < |xs| && keep(xs[i]) {
      TakeRunIsRun(xs, i + 1, push(a, xs[i]), keep, push);
      assert xs[i..e][0] == xs[i];
      assert xs[i..e][1..] == xs[i + 1..e];
    } else {
      assert xs[i..e] == [];
    }
  }

  /** Pushing the image of each element onto a sequence appends the images in order. */
  lemma {:induction false} PushEachMaps<T, B>(acc: seq<B>, ys: seq<T>, f: T -> B, push: (seq<B>, T) -> seq<B>)
    requires forall s: seq<B>, y: T :: push(s, y) == s + [f(y)]
    ensures PushEach(acc, ys, push) == acc + MapSeq(f, ys)
    decreases |ys|
  {
    if ys != [] {
      PushEachMaps(acc + [f(ys[0])], ys[1..], f, push);
      assert ys[0..|ys|] == ys;
      MapSlice(f, ys, 0, |ys|);
      assert acc + [f(ys[0])] + MapSeq(f, ys[1..]) == acc + ([f(ys[0])] + MapSeq(f, ys[1..]));
    }
  }
}
