/**
 * The stand-alone flag keeper (patriot.go): one pass over a decoded canvas
 * snapshot queues every pixel of the three-stripe flag at (75, 36)-(107, 56)
 * whose colour differs from its stripe's reference colour, and a worker
 * drains the queue, putting a pixel whose draw failed back at the tail.
 * The program has its own copy of the palette; its sameColor is the same
 * comparison as art.SameColor and is modelled by Art.SameColor.
 */
module Patriot {
  import opened Wrappers
  import Art

  // patriot.go's palette indices.
  const White := 0
  const LightGray := 1
  const Gray := 2
  const Black := 3
  const Pink := 4
  const Red := 5
  const Orange := 6
  const Brown := 7
  const Yellow := 8
  const Lime := 9
  const Green := 10
  const Aqua := 11
  const LightBlue := 12
  const Blue := 13
  const DarkPink := 14
  const Purple := 15

  /** A decoded snapshot: image.Image's At, followed by RGBA(). */
  type RgbaImage = (int, int) -> Art.Rgba

  // The flag's box in checkFlag, both corners inclusive.
  const X0 := 75
  const Y0 := 36
  const X1 := 107
  const Y1 := 56

  // The reference colours, as RGBA64 values.
  const BlueRef := Art.Rgba(0, 0, 60138, 65535)
  const BlackRef := Art.Rgba(8738, 8738, 8738, 65535)
  const WhiteRef := Art.Rgba(65535, 65535, 65535, 65535)

  /** One queued draw. */
  datatype Work = Work(x: int, y: int, c: int)

  /** The stripe of row y, `switch (y - y0) / 7`: the colour to paint and its reference value. */
  function Stripe(y: int): Option<(int, Art.Rgba)> {
    var stripe := Art.Quot(y - Y0, 7);
    if stripe == 0 then Some((Blue, BlueRef))
    else if stripe == 1 then Some((Black, BlackRef))
    else if stripe == 2 then Some((White, WhiteRef))
    else None
  }

  /** Rows 36-42 are Blue, 43-49 Black and 50-56 White. */
  lemma StripeRows(y: int)
    requires Y0 <= y <= Y1
    ensures y <= 42 ==> Stripe(y) == Some((Blue, BlueRef))
    ensures 43 <= y <= 49 ==> Stripe(y) == Some((Black, BlackRef))
    ensures 50 <= y ==> Stripe(y) == Some((White, WhiteRef))
  {
  }

  /** The flag pixel (x, y) does not show its stripe's reference colour. */
  predicate Mismatch(image: RgbaImage, x: int, y: int) {
    Stripe(y).Some? && !Art.SameColor(image(x, y), Stripe(y).value.1)
  }

  /** The work a queued item should be: a mismatched flag pixel and its stripe's colour. */
  predicate IsFlagWork(image: RgbaImage, w: Work) {
    X0 <= w.x <= X1 && Y0 <= w.y <= Y1 && Mismatch(image, w.x, w.y) && w.c == Stripe(w.y).value.0
  }

  /** Each item strictly precedes the next, hence no pixel is queued twice. */
  predicate Ordered(s: seq<Work>) {
    forall i, j :: 0 <= i < j < |s| ==> Art.Before(s[i].x, s[i].y, s[j].x, s[j].y)
  }

  lemma HeadIsMember(s: seq<Work>)
    ensures s != [] ==> s[0] in s
  {
  }

  /** The head of an ordered sequence precedes every other item of it. */
  lemma FirstIsLeast(s: seq<Work>, w: Work)
    requires Ordered(s) && w in s
    ensures s[0] == w || Art.Before(s[0].x, s[0].y, w.x, w.y)
  {
    var i :| 0 <= i < |s| && s[i] == w;
    if i > 0 {
      assert Art.Before(s[0].x, s[0].y, s[i].x, s[i].y);
    }
  }

  /**
   * Contents and order together fix a queue: two ordered sequences with
   * the same items are equal, so checkFlag's contract below determines
   * exactly what it appends.
   */
  lemma {:induction false} OrderedUnique(s: seq<Work>, t: seq<Work>)
    requires Ordered(s) && Ordered(t)
    requires forall w :: w in s <==> w in t
    ensures s == t
    decreases |s| + |t|
  {
    if s == [] {
      HeadIsMember(t);
    } else {
      assert s[0] in t;
      FirstIsLeast(s, t[0]);
      FirstIsLeast(t, s[0]);
      forall w ensures w in s[1..] <==> w in t[1..] {
        if w in s[1..] {
          var i :| 1 <= i < |s| && s[i] == w;
          assert Art.Before(s[0].x, s[0].y, w.x, w.y) && w in t;
          var j :| 0 <= j < |t| && t[j] == w;
          assert j != 0;
          assert w == t[1..][j - 1];
        }
        if w in t[1..] {
          var j :| 1 <= j < |t| && t[j] == w;
          assert Art.Before(t[0].x, t[0].y, w.x, w.y) && w in s;
          var i :| 0 <= i < |s| && s[i] == w;
          assert i != 0;
          assert w == s[1..][i - 1];
        }
      }
      OrderedUnique(s[1..], t[1..]);
      assert s == [s[0]] + s[1..] && t == [t[0]] + t[1..];
    }
  }

  /** One pass of the queue worker: the queue afterwards, given whether the draw of the head failed. */
  function QueueStep(queue: seq<Work>, drawFailed: bool): seq<Work> {
    if queue == [] then []
    else if drawFailed then queue[1..] + [queue[0]]
    else queue[1..]
  }

  /** A failed draw rotates the queue: nothing is lost, nothing is added. */
  lemma QueueStepFailure(queue: seq<Work>)
    ensures multiset(QueueStep(queue, true)) == multiset(queue)
    ensures queue != [] ==> QueueStep(queue, true)[|queue| - 1] == queue[0]
  {
    if queue != [] {
      assert queue == [queue[0]] + queue[1..];
    }
  }

  /** A successful draw removes the head and keeps the order of the rest. */
  lemma QueueStepSuccess(queue: seq<Work>)
    requires queue != []
    ensures multiset(QueueStep(queue, false)) == multiset(queue) - multiset{queue[0]}
    ensures QueueStep(queue, false) == queue[1..]
  {
    assert queue == [queue[0]] + queue[1..];
  }

  /** The global work queue. */
  class WorkQueue {
    var queue: seq<Work>

    constructor ()
      ensures queue == []
    {
      queue := [];
    }

    /** addToQueue: append at the tail. */
    method AddToQueue(w: Work)
      modifies this
      ensures queue == old(queue) + [w]
    {
      queue := queue + [w];
    }

    /**
     * One iteration of executeQueue: pop the head, if any, and draw it;
     * `drawFailed` is whether drawPixel returned an error, in which case
     * the item goes back at the tail.
     */
    method ExecuteStep(drawFailed: bool) returns (drawn: Option<Work>)
      modifies this
      ensures queue == QueueStep(old(queue), drawFailed)
      ensures drawn == if old(queue) == [] then None else Some(old(queue)[0])
    {
      drawn := None;
      if |queue| > 0 {
        var w := queue[0];
        queue := queue[1..];
        drawn := Some(w);
        if drawFailed {
          queue := queue + [w];
        }
      }
    }
  }

  /**
   * checkFlag: queue every flag pixel that needs painting, column by
   * column; what it appends is exactly the flag's mismatched pixels, each
   * with its stripe's colour, in scan order.
   */
  method CheckFlag(image: RgbaImage, q: WorkQueue)
    modifies q
    ensures |q.queue| >= |old(q.queue)| && q.queue[..|old(q.queue)|] == old(q.queue)
    ensures forall w :: w in q.queue[|old(q.queue)|..] <==> IsFlagWork(image, w)
    ensures Ordered(q.queue[|old(q.queue)|..])
  {
    ghost var start := q.queue;
    var x := X0;
    while x <= X1
      invariant X0 <= x <= X1 + 1
      invariant |q.queue| >= |start| && q.queue[..|start|] == start
      invariant forall w :: w in q.queue[|start|..] <==> IsFlagWork(image, w) && w.x < x
      invariant Ordered(q.queue[|start|..])
    {
      var y := Y0;
      while y <= Y1
        invariant Y0 <= y <= Y1 + 1
        invariant |q.queue| >= |start| && q.queue[..|start|] == start
        invariant forall w :: w in q.queue[|start|..] <==> IsFlagWork(image, w) && Art.Before(w.x, w.y, x, y)
        invariant Ordered(q.queue[|start|..])
      {
        ghost var added := q.queue[|start|..];
        var c := image(x, y);
        var stripe := Art.Quot(y - Y0, 7);
        ghost var w: Work;
        ghost var queued := false;
        if stripe == 0 {
          if !Art.SameColor(c, BlueRef) {
            q.AddToQueue(Work(x, y, Blue));
            w, queued := Work(x, y, Blue), true;
          }
        } else if stripe == 1 {
          if !Art.SameColor(c, BlackRef) {
            q.AddToQueue(Work(x, y, Black));
            w, queued := Work(x, y, Black), true;
          }
        } else if stripe == 2 {
          if !Art.SameColor(c, WhiteRef) {
            q.AddToQueue(Work(x, y, White));
            w, queued := Work(x, y, White), true;
          }
        }
        if queued {
          assert q.queue[|start|..] == added + [w];
          assert IsFlagWork(image, w);
          forall i | 0 <= i < |added| ensures Art.Before(added[i].x, added[i].y, w.x, w.y) {
            assert added[i] in added;
          }
        } else {
          assert q.queue[|start|..] == added;
          assert !Mismatch(image, x, y);
        }
        y := y + 1;
      }
      x := x + 1;
    }
  }
}
