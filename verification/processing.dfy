/** The processing half of `scrapeOrders` (src/scraper.ts): sort the captured
    orders newest first, pass over them with the date and address guards,
    and for each order whose element is found and clicked, calibrate once,
    take the screenshot and write the row under the next serial. */
module Processing {
  import opened Common
  import opened Types
  import opened Text
  import opened OrderMaps
  import opened Dom
  import opened Calibration
  import opened Sorting

  /** The date range (both ends as timestamps) and the address fragment. */
  datatype Config = Config(start: int, end: int, addressFilter: string)

  /** Inside the date range, both ends included, and delivered to an address
      containing the filter, compared as a raw substring. */
  predicate Qualifies(o: Order, cfg: Config) {
    && cfg.start <= o.orderTime <= cfg.end
    && Contains(o.deliveryAddress, cfg.addressFilter)
  }

  /** The guards at the top of the loop body: `continue` past orders newer than
      the end, `break` at the first order older than the start, `continue`
      past addresses without the filter. The orders left are the ones handed
      to the click step, in loop order. */
  function Select(sorted: seq<Order>, cfg: Config): (sel: seq<Order>)
    ensures forall k :: 0 <= k < |sel| ==> Qualifies(sel[k], cfg)
    ensures |sel| <= |sorted|
  {
    if |sorted| == 0 then []
    else
      var o := sorted[0];
      if o.orderTime > cfg.end then Select(sorted[1..], cfg)
      else if o.orderTime < cfg.start then []
      else if !Contains(o.deliveryAddress, cfg.addressFilter) then Select(sorted[1..], cfg)
      else [o] + Select(sorted[1..], cfg)
  }

  /** Reference: every qualifying order, in sequence order, without early exit. */
  function Qualifying(s: seq<Order>, cfg: Config): seq<Order> {
    if |s| == 0 then []
    else (if Qualifies(s[0], cfg) then [s[0]] else []) + Qualifying(s[1..], cfg)
  }

  lemma {:induction false} NoneQualifyBeforeStart(s: seq<Order>, cfg: Config)
    requires forall k :: 0 <= k < |s| ==> s[k].orderTime < cfg.start
    ensures Qualifying(s, cfg) == []
  {
    if |s| > 0 {
      NoneQualifyBeforeStart(s[1..], cfg);
    }
  }

  /** On a newest-first sequence the `break` loses nothing: the orders handed
      to the click step are exactly the qualifying ones, in sorted order. */
  lemma {:induction false} SelectIsQualifying(sorted: seq<Order>, cfg: Config)
    requires SortedByTimeDesc(sorted)
    ensures Select(sorted, cfg) == Qualifying(sorted, cfg)
  {
    if |sorted| > 0 {
      if sorted[0].orderTime <= cfg.end && sorted[0].orderTime < cfg.start {
        assert forall k :: 0 <= k < |sorted| ==> sorted[k].orderTime <= sorted[0].orderTime;
        NoneQualifyBeforeStart(sorted, cfg);
      } else {
        SelectIsQualifying(sorted[1..], cfg);
      }
    }
  }

  /** What the browser shows after a successful click: the viewport and the
      element boxes calibration would probe, the scroll offset, and whether
      the browser rejects a clipped screenshot. */
  datatype PageView = PageView(
    viewport: Viewport,
    elementAt: (int, int) -> Option<Rect>,
    scrollX: int,
    scrollY: int,
    clipRejected: bool)

  /** A screenshot file, named after the serial it was taken under. */
  datatype Image = Image(serial: nat, shot: Shot)

  /** The loop's state: the next serial, the calibration lock, the files
      written so far, and whether an exception ended the run. */
  datatype Run = Run(
    serial: nat,
    lock: Lock,
    images: seq<Image>,
    rows: seq<OutputRecord>,
    aborted: bool)

  /** The CSV row for an order. Reading `order_items[0].name` throws when
      there are no items (`None`). The date is the formatted date without
      its first word, the weekday. */
  function MakeRecord(serial: nat, o: Order, toDateString: int -> string): (r: Option<OutputRecord>)
    ensures r.None? <==> |o.orderItems| == 0
    ensures r.Some? ==>
      && r.value.serial == serial
      && r.value.items == o.orderItems[0].name
      && r.value.orderId == o.orderId
      && r.value.date == DropFirstToken(toDateString(o.orderTime))
      && r.value.amount == o.orderTotal
      && r.value.total == o.orderTotal
      && r.value.restaurant == o.restaurantName
  {
    if |o.orderItems| == 0 then None
    else Some(OutputRecord(
      serial, o.orderItems[0].name, o.orderId, DropFirstToken(toDateString(o.orderTime)),
      o.orderTotal, o.orderTotal, o.restaurantName))
  }

  /** Reference: the positions, from `i` on, of the selected orders whose
      click succeeds, in loop order. */
  function Successes(sel: seq<Order>, found: nat -> bool, i: nat): (p: seq<nat>)
    requires i <= |sel|
    ensures forall k :: 0 <= k < |p| ==> i <= p[k] < |sel| && found(p[k])
    ensures forall k, l :: 0 <= k < l < |p| ==> p[k] < p[l]
    decreases |sel| - i
  {
    if i == |sel| then []
    else (if found(i) then [i] else []) + Successes(sel, found, i + 1)
  }

  /** Every successful click from `i` on is listed. */
  lemma {:induction false} SuccessesComplete(sel: seq<Order>, found: nat -> bool, i: nat, j: nat)
    requires i <= j < |sel| && found(j)
    ensures j in Successes(sel, found, i)
    decreases j - i
  {
    if i < j {
      SuccessesComplete(sel, found, i + 1, j);
    }
  }

  /** The click-and-capture part of the loop body over the selected orders,
      from position `i` on. `pageAt(j)` is the page at the `j`-th attempt. A
      failed click writes nothing and keeps the serial; a successful one
      calibrates if nothing is locked, writes the image, then the row, and
      advances the serial; an order without items ends the run after its
      image. */
  function Capture(sel: seq<Order>, found: nat -> bool, pageAt: nat -> PageView,
                   toDateString: int -> string, i: nat, st: Run): Run
    requires i <= |sel|
    decreases |sel| - i
  {
    if i == |sel| then st
    else
      var o := sel[i];
      var page := pageAt(i);
      if !found(i) then
        Capture(sel, found, pageAt, toDateString, i + 1, st)
      else
        var lock := EnsureCalibrated(st.lock, page.viewport, page.elementAt);
        var shot := Screenshot(lock.clip.value, page.scrollX, page.scrollY, page.clipRejected);
        var st1 := st.(lock := lock, images := st.images + [Image(st.serial, shot)]);
        match MakeRecord(st.serial, o, toDateString)
        case None => st1.(aborted := true)
        case Some(row) =>
          Capture(sel, found, pageAt, toDateString, i + 1, st1.(serial := st.serial + 1, rows := st.rows + [row]))
  }

  /** The unfolding of one successful click whose order has items. */
  function AfterRow(sel: seq<Order>, pageAt: nat -> PageView, toDateString: int -> string, i: nat, st: Run): Run
    requires i < |sel|
    requires |sel[i].orderItems| > 0
  {
    var page := pageAt(i);
    var lock := EnsureCalibrated(st.lock, page.viewport, page.elementAt);
    var shot := Screenshot(lock.clip.value, page.scrollX, page.scrollY, page.clipRejected);
    st.(lock := lock, images := st.images + [Image(st.serial, shot)], serial := st.serial + 1,
        rows := st.rows + [MakeRecord(st.serial, sel[i], toDateString).value])
  }

  /** A failed click moves on with the state unchanged. */
  lemma CaptureSkips(sel: seq<Order>, found: nat -> bool, pageAt: nat -> PageView, toDateString: int -> string, i: nat, st: Run)
    requires i < |sel| && !found(i)
    ensures Capture(sel, found, pageAt, toDateString, i, st) == Capture(sel, found, pageAt, toDateString, i + 1, st)
  {
  }

  /** A successful click on an order with items moves on after its row. */
  lemma CaptureWrites(sel: seq<Order>, found: nat -> bool, pageAt: nat -> PageView, toDateString: int -> string, i: nat, st: Run)
    requires i < |sel| && found(i) && |sel[i].orderItems| > 0
    ensures Capture(sel, found, pageAt, toDateString, i, st)
      == Capture(sel, found, pageAt, toDateString, i + 1, AfterRow(sel, pageAt, toDateString, i, st))
  {
  }

  /** A successful click on an order without items ends the run after its
      image, with no row. */
  lemma CaptureStops(sel: seq<Order>, found: nat -> bool, pageAt: nat -> PageView, toDateString: int -> string, i: nat, st: Run)
    requires i < |sel| && found(i) && |sel[i].orderItems| == 0
    ensures var r := Capture(sel, found, pageAt, toDateString, i, st);
      && r.aborted && r.rows == st.rows && r.serial == st.serial && r.lock.clip.Some?
      && |r.images| == |st.images| + 1 && r.images[..|st.images|] == st.images
      && r.images[|st.images|].serial == st.serial
  {
  }

  /** Serial bookkeeping between a state and a later one: rows and images are
      only appended, the serial advances by exactly the number of rows
      written, and the new images carry consecutive serials from the old
      serial on, one per row plus one more when the run was ended early. */
  predicate Numbered(st: Run, r: Run) {
    && st.rows <= r.rows
    && st.images <= r.images
    && r.serial == st.serial + (|r.rows| - |st.rows|)
    && |r.images| == |st.images| + (|r.rows| - |st.rows|) + (if r.aborted then 1 else 0)
    && (forall k :: |st.images| <= k < |r.images| ==>
          r.images[k].serial == st.serial + (k - |st.images|))
  }

  /** The capture loop keeps the serial bookkeeping. */
  lemma {:induction false} CaptureNumbers(sel: seq<Order>, found: nat -> bool, pageAt: nat -> PageView,
                                          toDateString: int -> string, i: nat, st: Run)
    requires i <= |sel|
    requires !st.aborted
    ensures Numbered(st, Capture(sel, found, pageAt, toDateString, i, st))
    decreases |sel| - i
  {
    if i == |sel| {
      assert Capture(sel, found, pageAt, toDateString, i, st) == st;
    } else {
      if !found(i) {
        CaptureSkips(sel, found, pageAt, toDateString, i, st);
        CaptureNumbers(sel, found, pageAt, toDateString, i + 1, st);
      } else if |sel[i].orderItems| > 0 {
        CaptureWrites(sel, found, pageAt, toDateString, i, st);
        var st2 := AfterRow(sel, pageAt, toDateString, i, st);
        assert Numbered(st, st2) by {
          assert |st2.images| == |st.images| + 1;
        }
        CaptureNumbers(sel, found, pageAt, toDateString, i + 1, st2);
        var r := Capture(sel, found, pageAt, toDateString, i + 1, st2);
        NumberedTrans(st, st2, r);
      } else {
        CaptureStops(sel, found, pageAt, toDateString, i, st);
      }
    }
  }

  lemma NumberedTrans(a: Run, b: Run, c: Run)
    requires !a.aborted && !b.aborted
    requires Numbered(a, b) && Numbered(b, c)
    ensures Numbered(a, c)
  {
    forall k | |a.images| <= k < |c.images|
      ensures c.images[k].serial == a.serial + (k - |a.images|)
    {
      if k < |b.images| {
        assert c.images[k] == b.images[k];
      }
    }
  }

  /** The rows added between two states are the records, numbered on from the
      first state's serial, of the orders at the first positions of `p`. */
  predicate RowsFollow(sel: seq<Order>, toDateString: int -> string, p: seq<nat>, st: Run, r: Run) {
    && 0 <= |r.rows| - |st.rows| <= |p|
    && (forall k :: 0 <= k < |p| ==> p[k] < |sel|)
    && (forall k :: 0 <= k < |r.rows| - |st.rows| ==>
          MakeRecord(st.serial + k, sel[p[k]], toDateString) == Some(r.rows[|st.rows| + k]))
  }

  lemma RowsFollowCons(sel: seq<Order>, pageAt: nat -> PageView, toDateString: int -> string,
                       i: nat, p': seq<nat>, st: Run, r: Run)
    requires i < |sel| && |sel[i].orderItems| > 0
    requires RowsFollow(sel, toDateString, p', AfterRow(sel, pageAt, toDateString, i, st), r)
    requires AfterRow(sel, pageAt, toDateString, i, st).rows <= r.rows
    ensures RowsFollow(sel, toDateString, [i] + p', st, r)
  {
    var st2 := AfterRow(sel, pageAt, toDateString, i, st);
    var p := [i] + p';
    assert r.rows[|st.rows|] == st2.rows[|st.rows|];
    forall k | 0 <= k < |r.rows| - |st.rows|
      ensures MakeRecord(st.serial + k, sel[p[k]], toDateString) == Some(r.rows[|st.rows| + k])
    {
      if k > 0 {
        assert p[k] == p'[k - 1];
      }
    }
  }

  lemma SkipStep(sel: seq<Order>, found: nat -> bool, i: nat)
    requires i < |sel|
    ensures Successes(sel, found, i) ==
      (if found(i) then [i] else []) + Successes(sel, found, i + 1)
  {
  }

  /** The rows the capture loop writes are the records of the first
      successful clicks, in order, numbered on from the current serial. */
  lemma {:induction false} CaptureRows(sel: seq<Order>, found: nat -> bool, pageAt: nat -> PageView,
                                       toDateString: int -> string, i: nat, st: Run)
    requires i <= |sel|
    requires !st.aborted
    ensures RowsFollow(sel, toDateString, Successes(sel, found, i), st,
                       Capture(sel, found, pageAt, toDateString, i, st))
    decreases |sel| - i
  {
    if i == |sel| {
      assert Capture(sel, found, pageAt, toDateString, i, st) == st;
    } else if !found(i) {
      CaptureRows(sel, found, pageAt, toDateString, i + 1, st);
      RowsAfterSkip(sel, found, pageAt, toDateString, i, st);
    } else if |sel[i].orderItems| > 0 {
      var st2 := AfterRow(sel, pageAt, toDateString, i, st);
      CaptureRows(sel, found, pageAt, toDateString, i + 1, st2);
      CaptureNumbers(sel, found, pageAt, toDateString, i + 1, st2);
      RowsAfterRow(sel, found, pageAt, toDateString, i, st);
    } else {
      RowsAtStop(sel, found, pageAt, toDateString, i, st);
    }
  }

  lemma RowsAfterSkip(sel: seq<Order>, found: nat -> bool, pageAt: nat -> PageView,
                      toDateString: int -> string, i: nat, st: Run)
    requires i < |sel| && !found(i)
    requires RowsFollow(sel, toDateString, Successes(sel, found, i + 1), st,
                        Capture(sel, found, pageAt, toDateString, i + 1, st))
    ensures RowsFollow(sel, toDateString, Successes(sel, found, i), st,
                       Capture(sel, found, pageAt, toDateString, i, st))
  {
    CaptureSkips(sel, found, pageAt, toDateString, i, st);
    SkipStep(sel, found, i);
    var p := Successes(sel, found, i + 1);
    var r := Capture(sel, found, pageAt, toDateString, i + 1, st);
    assert Successes(sel, found, i) == p;
    assert Capture(sel, found, pageAt, toDateString, i, st) == r;
    assert RowsFollow(sel, toDateString, p, st, r);
  }

  lemma RowsAfterRow(sel: seq<Order>, found: nat -> bool, pageAt: nat -> PageView,
                     toDateString: int -> string, i: nat, st: Run)
    requires i < |sel| && found(i) && |sel[i].orderItems| > 0
    requires var st2 := AfterRow(sel, pageAt, toDateString, i, st);
      && RowsFollow(sel, toDateString, Successes(sel, found, i + 1), st2,
                    Capture(sel, found, pageAt, toDateString, i + 1, st2))
      && Numbered(st2, Capture(sel, found, pageAt, toDateString, i + 1, st2))
    ensures RowsFollow(sel, toDateString, Successes(sel, found, i), st,
                       Capture(sel, found, pageAt, toDateString, i, st))
  {
    CaptureWrites(sel, found, pageAt, toDateString, i, st);
    SkipStep(sel, found, i);
    var st2 := AfterRow(sel, pageAt, toDateString, i, st);
    RowsFollowCons(sel, pageAt, toDateString, i, Successes(sel, found, i + 1), st,
                   Capture(sel, found, pageAt, toDateString, i + 1, st2));
  }

  lemma RowsAtStop(sel: seq<Order>, found: nat -> bool, pageAt: nat -> PageView,
                   toDateString: int -> string, i: nat, st: Run)
    requires i < |sel| && found(i) && |sel[i].orderItems| == 0
    ensures RowsFollow(sel, toDateString, Successes(sel, found, i), st,
                       Capture(sel, found, pageAt, toDateString, i, st))
  {
    CaptureStops(sel, found, pageAt, toDateString, i, st);
    SkipStep(sel, found, i);
  }

  /** The run ended early between two states exactly when an order at some
      position of `p` has no items; the rows then stop just before the first
      such order, and otherwise one row was added per position. */
  predicate EndsAsExpected(sel: seq<Order>, p: seq<nat>, st: Run, r: Run)
    requires forall k :: 0 <= k < |p| ==> p[k] < |sel|
  {
    var n := |r.rows| - |st.rows|;
    && (r.aborted <==> exists k :: 0 <= k < |p| && |sel[p[k]].orderItems| == 0)
    && (!r.aborted ==> n == |p|)
    && (r.aborted ==> 0 <= n < |p| && |sel[p[n]].orderItems| == 0)
  }

  lemma EndsAsExpectedCons(sel: seq<Order>, i: nat, p': seq<nat>, st: Run, st2: Run, r: Run)
    requires i < |sel| && |sel[i].orderItems| > 0
    requires forall k :: 0 <= k < |p'| ==> p'[k] < |sel|
    requires |st2.rows| == |st.rows| + 1
    requires EndsAsExpected(sel, p', st2, r)
    ensures EndsAsExpected(sel, [i] + p', st, r)
  {
    var p := [i] + p';
    var n' := |r.rows| - |st2.rows|;
    if r.aborted {
      assert p[n' + 1] == p'[n'];
    }
    if exists k :: 0 <= k < |p| && |sel[p[k]].orderItems| == 0 {
      var k :| 0 <= k < |p| && |sel[p[k]].orderItems| == 0;
      assert k > 0 && p[k] == p'[k - 1];
    }
    if exists k :: 0 <= k < |p'| && |sel[p'[k]].orderItems| == 0 {
      var k :| 0 <= k < |p'| && |sel[p'[k]].orderItems| == 0;
      assert p[k + 1] == p'[k];
    }
  }

  /** The run ends early exactly when some successfully clicked order has no
      items; then the rows stop just before the first such order. */
  lemma {:induction false} CaptureAborts(sel: seq<Order>, found: nat -> bool, pageAt: nat -> PageView,
                                         toDateString: int -> string, i: nat, st: Run)
    requires i <= |sel|
    requires !st.aborted
    ensures EndsAsExpected(sel, Successes(sel, found, i), st, Capture(sel, found, pageAt, toDateString, i, st))
    decreases |sel| - i
  {
    if i == |sel| {
      assert Capture(sel, found, pageAt, toDateString, i, st) == st;
    } else if !found(i) {
      CaptureAborts(sel, found, pageAt, toDateString, i + 1, st);
      AbortsAfterSkip(sel, found, pageAt, toDateString, i, st);
    } else if |sel[i].orderItems| > 0 {
      CaptureAborts(sel, found, pageAt, toDateString, i + 1, AfterRow(sel, pageAt, toDateString, i, st));
      AbortsAfterRow(sel, found, pageAt, toDateString, i, st);
    } else {
      AbortsAtStop(sel, found, pageAt, toDateString, i, st);
    }
  }

  lemma AbortsAfterSkip(sel: seq<Order>, found: nat -> bool, pageAt: nat -> PageView,
                        toDateString: int -> string, i: nat, st: Run)
    requires i < |sel| && !found(i)
    requires EndsAsExpected(sel, Successes(sel, found, i + 1), st, Capture(sel, found, pageAt, toDateString, i + 1, st))
    ensures EndsAsExpected(sel, Successes(sel, found, i), st, Capture(sel, found, pageAt, toDateString, i, st))
  {
    CaptureSkips(sel, found, pageAt, toDateString, i, st);
    SkipStep(sel, found, i);
    var p := Successes(sel, found, i + 1);
    var r := Capture(sel, found, pageAt, toDateString, i + 1, st);
    assert Successes(sel, found, i) == p;
    assert Capture(sel, found, pageAt, toDateString, i, st) == r;
    assert EndsAsExpected(sel, p, st, r);
  }

  lemma AbortsAfterRow(sel: seq<Order>, found: nat -> bool, pageAt: nat -> PageView,
                       toDateString: int -> string, i: nat, st: Run)
    requires i < |sel| && found(i) && |sel[i].orderItems| > 0
    requires var st2 := AfterRow(sel, pageAt, toDateString, i, st);
      EndsAsExpected(sel, Successes(sel, found, i + 1), st2, Capture(sel, found, pageAt, toDateString, i + 1, st2))
    ensures EndsAsExpected(sel, Successes(sel, found, i), st, Capture(sel, found, pageAt, toDateString, i, st))
  {
    CaptureWrites(sel, found, pageAt, toDateString, i, st);
    SkipStep(sel, found, i);
    var st2 := AfterRow(sel, pageAt, toDateString, i, st);
    EndsAsExpectedCons(sel, i, Successes(sel, found, i + 1), st, st2,
                       Capture(sel, found, pageAt, toDateString, i + 1, st2));
  }

  lemma AbortsAtStop(sel: seq<Order>, found: nat -> bool, pageAt: nat -> PageView,
                     toDateString: int -> string, i: nat, st: Run)
    requires i < |sel| && found(i) && |sel[i].orderItems| == 0
    ensures EndsAsExpected(sel, Successes(sel, found, i), st, Capture(sel, found, pageAt, toDateString, i, st))
  {
    CaptureStops(sel, found, pageAt, toDateString, i, st);
    SkipStep(sel, found, i);
    EndsAsExpectedStop(sel, Successes(sel, found, i), st, Capture(sel, found, pageAt, toDateString, i, st));
  }

  /** An order without items at the first position of `p` ends the run with
      no row added. */
  lemma EndsAsExpectedStop(sel: seq<Order>, p: seq<nat>, st: Run, r: Run)
    requires |p| > 0 && forall k :: 0 <= k < |p| ==> p[k] < |sel|
    requires |sel[p[0]].orderItems| == 0
    requires r.aborted && r.rows == st.rows
    ensures EndsAsExpected(sel, p, st, r)
  {
  }

  /** The calibration lock over the capture loop: with a region locked
      nothing is recalibrated and the lock stays as it is; otherwise
      calibration runs at most once, and a region ends up locked exactly when
      some click succeeds. Every clipped image is the locked region's size. */
  lemma {:induction false} CaptureLocksOnce(sel: seq<Order>, found: nat -> bool, pageAt: nat -> PageView,
                                            toDateString: int -> string, i: nat, st: Run)
    requires i <= |sel|
    requires forall k :: 0 <= k < |st.images| && st.images[k].shot.Clipped? ==>
      st.lock.clip.Some? && SameSize(st.images[k].shot.region, st.lock.clip.value)
    ensures var r := Capture(sel, found, pageAt, toDateString, i, st);
            && (st.lock.clip.Some? ==> r.lock == st.lock)
            && r.lock.calibrations ==
                 st.lock.calibrations + (if st.lock.clip.None? && r.lock.clip.Some? then 1 else 0)
            && (r.lock.clip.Some? <==> st.lock.clip.Some? || |Successes(sel, found, i)| > 0)
            && (forall k :: 0 <= k < |r.images| && r.images[k].shot.Clipped? ==>
                  r.lock.clip.Some? && SameSize(r.images[k].shot.region, r.lock.clip.value))
    decreases |sel| - i
  {
    if i < |sel| {
      var p := Successes(sel, found, i);
      if !found(i) {
        CaptureSkips(sel, found, pageAt, toDateString, i, st);
        assert p == Successes(sel, found, i + 1);
        CaptureLocksOnce(sel, found, pageAt, toDateString, i + 1, st);
      } else {
        assert |p| > 0;
        var page := pageAt(i);
        var lock := EnsureCalibrated(st.lock, page.viewport, page.elementAt);
        assert st.lock.clip.Some? ==> lock.clip == st.lock.clip;
        if |sel[i].orderItems| > 0 {
          CaptureWrites(sel, found, pageAt, toDateString, i, st);
          var st2 := AfterRow(sel, pageAt, toDateString, i, st);
          assert st2.lock == lock;
          CaptureLocksOnce(sel, found, pageAt, toDateString, i + 1, st2);
        }
      }
    }
  }

  /** Which region is locked and what each new image shows, between a state
      and a later one, in terms of `p`, the positions of the successful
      clicks: a region already locked stays; otherwise the region locked is
      the calibration of the page at the first successful click; and the
      image of the `n`-th successful click is the screenshot of its page with
      the locked region. */
  predicate ShotsFollow(pageAt: nat -> PageView, p: seq<nat>, st: Run, r: Run) {
    && st.images <= r.images
    && (st.lock.clip.Some? ==> r.lock.clip == st.lock.clip)
    && (st.lock.clip.None? && |p| > 0 ==>
          r.lock.clip == Some(Calibrate(pageAt(p[0]).viewport, pageAt(p[0]).elementAt)))
    && (forall k :: |st.images| <= k < |r.images| ==> ShotOf(pageAt, p, |st.images|, r, k))
  }

  /** Image `k` of `r` is the screenshot, with the locked region, of the page
      at the `(k - base)`-th position of `p`. */
  predicate ShotOf(pageAt: nat -> PageView, p: seq<nat>, base: nat, r: Run, k: nat) {
    && base <= k < |r.images|
    && k - base < |p|
    && r.lock.clip.Some?
    && r.images[k].shot == Screenshot(r.lock.clip.value, pageAt(p[k - base]).scrollX,
                                      pageAt(p[k - base]).scrollY, pageAt(p[k - base]).clipRejected)
  }

  /** The capture loop locks the first successful click's calibration and
      shoots every successful click's page with it. */
  lemma {:induction false} CaptureShots(sel: seq<Order>, found: nat -> bool, pageAt: nat -> PageView,
                                        toDateString: int -> string, i: nat, st: Run)
    requires i <= |sel|
    ensures ShotsFollow(pageAt, Successes(sel, found, i), st, Capture(sel, found, pageAt, toDateString, i, st))
    decreases |sel| - i
  {
    if i == |sel| {
      assert Capture(sel, found, pageAt, toDateString, i, st) == st;
    } else if !found(i) {
      CaptureShots(sel, found, pageAt, toDateString, i + 1, st);
      ShotsAfterSkip(sel, found, pageAt, toDateString, i, st);
    } else if |sel[i].orderItems| > 0 {
      CaptureShots(sel, found, pageAt, toDateString, i + 1, AfterRow(sel, pageAt, toDateString, i, st));
      ShotsAfterRow(sel, found, pageAt, toDateString, i, st);
    } else {
      ShotsAtStop(sel, found, pageAt, toDateString, i, st);
    }
  }

  lemma ShotsAfterSkip(sel: seq<Order>, found: nat -> bool, pageAt: nat -> PageView,
                       toDateString: int -> string, i: nat, st: Run)
    requires i < |sel| && !found(i)
    requires ShotsFollow(pageAt, Successes(sel, found, i + 1), st, Capture(sel, found, pageAt, toDateString, i + 1, st))
    ensures ShotsFollow(pageAt, Successes(sel, found, i), st, Capture(sel, found, pageAt, toDateString, i, st))
  {
    CaptureSkips(sel, found, pageAt, toDateString, i, st);
    SkipStep(sel, found, i);
    var p := Successes(sel, found, i + 1);
    var r := Capture(sel, found, pageAt, toDateString, i + 1, st);
    assert Successes(sel, found, i) == p;
    assert Capture(sel, found, pageAt, toDateString, i, st) == r;
    assert ShotsFollow(pageAt, p, st, r);
  }

  lemma ShotsAfterRow(sel: seq<Order>, found: nat -> bool, pageAt: nat -> PageView,
                      toDateString: int -> string, i: nat, st: Run)
    requires i < |sel| && found(i) && |sel[i].orderItems| > 0
    requires var st2 := AfterRow(sel, pageAt, toDateString, i, st);
      ShotsFollow(pageAt, Successes(sel, found, i + 1), st2, Capture(sel, found, pageAt, toDateString, i + 1, st2))
    ensures ShotsFollow(pageAt, Successes(sel, found, i), st, Capture(sel, found, pageAt, toDateString, i, st))
  {
    CaptureWrites(sel, found, pageAt, toDateString, i, st);
    SkipStep(sel, found, i);
    var st2 := AfterRow(sel, pageAt, toDateString, i, st);
    ShotsCons(pageAt, i, Successes(sel, found, i + 1), st, st2,
              Capture(sel, found, pageAt, toDateString, i + 1, st2));
  }

  lemma ShotsAtStop(sel: seq<Order>, found: nat -> bool, pageAt: nat -> PageView,
                    toDateString: int -> string, i: nat, st: Run)
    requires i < |sel| && found(i) && |sel[i].orderItems| == 0
    ensures ShotsFollow(pageAt, Successes(sel, found, i), st, Capture(sel, found, pageAt, toDateString, i, st))
  {
    SkipStep(sel, found, i);
    var p := Successes(sel, found, i);
    var r := Capture(sel, found, pageAt, toDateString, i, st);
    assert p[0] == i;
    assert |r.images| == |st.images| + 1;
  }

  /** One successful click in front of a later stretch of the loop. */
  lemma ShotsCons(pageAt: nat -> PageView, i: nat, p': seq<nat>, st: Run, st2: Run, r: Run)
    requires st2.lock.clip.Some?
    requires st.lock.clip.Some? ==> st2.lock.clip == st.lock.clip
    requires st.lock.clip.None? ==>
      st2.lock.clip == Some(Calibrate(pageAt(i).viewport, pageAt(i).elementAt))
    requires st2.images == st.images + [Image(st.serial, Screenshot(st2.lock.clip.value,
                                          pageAt(i).scrollX, pageAt(i).scrollY, pageAt(i).clipRejected))]
    requires ShotsFollow(pageAt, p', st2, r)
    ensures ShotsFollow(pageAt, [i] + p', st, r)
  {
    var p := [i] + p';
    assert r.lock.clip == st2.lock.clip;
    assert p[0] == i;
    assert st.images <= st2.images <= r.images;
    forall k | |st.images| <= k < |r.images|
      ensures ShotOf(pageAt, p, |st.images|, r, k)
    {
      if k == |st.images| {
        assert r.images[k] == st2.images[k];
        assert k - |st.images| == 0;
      } else {
        assert |st2.images| == |st.images| + 1;
        assert ShotOf(pageAt, p', |st2.images|, r, k);
        assert p[k - |st.images|] == p'[k - |st2.images|];
      }
    }
  }

  /** The state before the loop: serial 1, nothing written. The lock is given
      because `CALIBRATED_CLIP` is module state that outlives one call. */
  function Initial(clip: Option<Rect>): Run {
    Run(1, Lock(clip, 0), [], [], false)
  }

  /** What a whole run writes, in terms of `p`, the positions of the
      selected orders whose click succeeds: the rows are the records of the
      first of those orders, numbered 1, 2, ... without gaps, one for each
      unless an order without items ends the run, in which case the rows
      stop just before the first such order; each image carries the
      serial of its row, and only the order that ends the run leaves an image
      without a row. */
  predicate WritesInOrder(sel: seq<Order>, p: seq<nat>, toDateString: int -> string, r: Run)
    requires forall k :: 0 <= k < |p| ==> p[k] < |sel|
  {
    && |r.rows| <= |p|
    && (forall k :: 0 <= k < |r.rows| ==> MakeRecord(k + 1, sel[p[k]], toDateString) == Some(r.rows[k]))
    && (forall k :: 0 <= k < |r.rows| ==> r.rows[k].serial == k + 1)
    && r.serial == |r.rows| + 1
    && |r.images| == |r.rows| + (if r.aborted then 1 else 0)
    && (forall k :: 0 <= k < |r.images| ==> r.images[k].serial == k + 1)
    && (r.aborted <==> exists k :: 0 <= k < |p| && |sel[p[k]].orderItems| == 0)
    && (!r.aborted ==> |r.rows| == |p|)
    && (r.aborted ==> |r.rows| < |p| && |sel[p[|r.rows|]].orderItems| == 0)
  }

  /** The capture loop run from the initial state writes in order. */
  lemma RunWritesInOrder(sel: seq<Order>, found: nat -> bool, pageAt: nat -> PageView,
                         toDateString: int -> string, clip: Option<Rect>)
    ensures WritesInOrder(sel, Successes(sel, found, 0), toDateString,
                          Capture(sel, found, pageAt, toDateString, 0, Initial(clip)))
  {
    var r := Capture(sel, found, pageAt, toDateString, 0, Initial(clip));
    CaptureNumbers(sel, found, pageAt, toDateString, 0, Initial(clip));
    CaptureRows(sel, found, pageAt, toDateString, 0, Initial(clip));
    CaptureAborts(sel, found, pageAt, toDateString, 0, Initial(clip));
    PartsWriteInOrder(sel, Successes(sel, found, 0), toDateString, clip, r);
  }

  /** The serial bookkeeping, the rows and the early end, from the initial
      state, together say that a run writes in order. */
  lemma PartsWriteInOrder(sel: seq<Order>, p: seq<nat>, toDateString: int -> string, clip: Option<Rect>, r: Run)
    requires forall k :: 0 <= k < |p| ==> p[k] < |sel|
    requires Numbered(Initial(clip), r)
    requires RowsFollow(sel, toDateString, p, Initial(clip), r)
    requires EndsAsExpected(sel, p, Initial(clip), r)
    ensures WritesInOrder(sel, p, toDateString, r)
  {
    var st := Initial(clip);
    assert |st.rows| == 0 && |st.images| == 0 && st.serial == 1;
    forall k | 0 <= k < |r.rows|
      ensures MakeRecord(k + 1, sel[p[k]], toDateString) == Some(r.rows[k])
      ensures r.rows[k].serial == k + 1
    {
      assert MakeRecord(st.serial + k, sel[p[k]], toDateString) == Some(r.rows[|st.rows| + k]);
    }
  }

  /** The click outcome at each attempt: the text search for the order's id
      on the document as it stands at that attempt. */
  function FoundAt(sel: seq<Order>, documentAt: nat -> seq<TextNode>): nat -> bool {
    (j: nat) => j < |sel| && ClickOrderDetails(documentAt(j), sel[j].orderId)
  }

  /** `scrapeOrders` after the expansion: sort, select, capture. */
  function Scrape(m: OrderMap, cfg: Config, documentAt: nat -> seq<TextNode>, pageAt: nat -> PageView,
                  toDateString: int -> string, clip: Option<Rect>): Run
    requires Valid(m)
  {
    var sel := Select(SortByTimeDesc(Values(m)), cfg);
    Capture(sel, FoundAt(sel, documentAt), pageAt, toDateString, 0, Initial(clip))
  }

  /** A run writes, in order and numbered from 1, the records of the orders
      that, among the captured ones sorted newest first, lie inside the date
      range, have a matching address and whose element the text search
      finds. */
  lemma ScrapeWrites(m: OrderMap, cfg: Config, documentAt: nat -> seq<TextNode>, pageAt: nat -> PageView,
                     toDateString: int -> string, clip: Option<Rect>)
    requires Valid(m)
    ensures var q := Qualifying(SortByTimeDesc(Values(m)), cfg);
            WritesInOrder(q, Successes(q, FoundAt(q, documentAt), 0), toDateString,
                          Scrape(m, cfg, documentAt, pageAt, toDateString, clip))
  {
    var sorted := SortByTimeDesc(Values(m));
    SelectIsQualifying(sorted, cfg);
    var q := Qualifying(sorted, cfg);
    RunWritesInOrder(q, FoundAt(q, documentAt), pageAt, toDateString, clip);
  }

  /** Calibration over a whole run, in terms of `p`, the positions of the
      successful clicks: with no region locked beforehand it runs at most
      once, exactly when some click succeeds; with one locked it never runs
      and the lock is kept. Every clipped image has the locked size, the
      region locked is the calibration of the first successful click's page,
      and the `n`-th image is that click's page shot with the locked region. */
  predicate LockedOnce(pageAt: nat -> PageView, clip: Option<Rect>, p: seq<nat>, r: Run) {
    && (clip.Some? ==> r.lock == Lock(clip, 0))
    && r.lock.calibrations <= 1
    && (clip.None? ==> (r.lock.calibrations == 1 <==> |p| > 0))
    && (forall k :: 0 <= k < |r.images| && r.images[k].shot.Clipped? ==>
          r.lock.clip.Some? && SameSize(r.images[k].shot.region, r.lock.clip.value))
    && ShotsFollow(pageAt, p, Initial(clip), r)
  }

  lemma RunLocksOnce(sel: seq<Order>, found: nat -> bool, pageAt: nat -> PageView,
                     toDateString: int -> string, clip: Option<Rect>)
    ensures LockedOnce(pageAt, clip, Successes(sel, found, 0), Capture(sel, found, pageAt, toDateString, 0, Initial(clip)))
  {
    CaptureLocksOnce(sel, found, pageAt, toDateString, 0, Initial(clip));
    CaptureShots(sel, found, pageAt, toDateString, 0, Initial(clip));
  }

  /** The calibration lock holds over a run of the scraper. */
  lemma ScrapeLocksOnce(m: OrderMap, cfg: Config, documentAt: nat -> seq<TextNode>, pageAt: nat -> PageView,
                        toDateString: int -> string, clip: Option<Rect>)
    requires Valid(m)
    ensures var sel := Select(SortByTimeDesc(Values(m)), cfg);
            LockedOnce(pageAt, clip, Successes(sel, FoundAt(sel, documentAt), 0),
                       Scrape(m, cfg, documentAt, pageAt, toDateString, clip))
  {
    var sel := Select(SortByTimeDesc(Values(m)), cfg);
    RunLocksOnce(sel, FoundAt(sel, documentAt), pageAt, toDateString, clip);
  }

  /** Three captured orders, inserted newest first, of which the oldest lies
      before the start of the range while the two others lie inside it at
      matching addresses and are found on the page: the run writes exactly
      two rows, serial 1 for the newest and serial 2 for the next, and stops
      before the oldest. */
  lemma ThreeOrdersTwoRows(m: OrderMap, a: Order, b: Order, c: Order, cfg: Config,
                           documentAt: nat -> seq<TextNode>, pageAt: nat -> PageView,
                           toDateString: int -> string)
    requires Valid(m) && Values(m) == [a, b, c]
    requires c.orderTime < cfg.start <= b.orderTime < a.orderTime <= cfg.end
    requires Contains(a.deliveryAddress, cfg.addressFilter) && Contains(b.deliveryAddress, cfg.addressFilter)
    requires |a.orderItems| > 0 && |b.orderItems| > 0
    requires ClickOrderDetails(documentAt(0), a.orderId) && ClickOrderDetails(documentAt(1), b.orderId)
    ensures var r := Scrape(m, cfg, documentAt, pageAt, toDateString, None);
            && !r.aborted
            && |r.rows| == 2
            && r.rows[0].serial == 1 && r.rows[0].orderId == a.orderId
            && r.rows[1].serial == 2 && r.rows[1].orderId == b.orderId
  {
    ThreeSelectTwo(a, b, c, cfg);
    TwoCaptured(a, b, documentAt, pageAt, toDateString);
  }

  lemma TwoCaptured(a: Order, b: Order, documentAt: nat -> seq<TextNode>, pageAt: nat -> PageView,
                    toDateString: int -> string)
    requires |a.orderItems| > 0 && |b.orderItems| > 0
    requires ClickOrderDetails(documentAt(0), a.orderId) && ClickOrderDetails(documentAt(1), b.orderId)
    ensures var r := Capture([a, b], FoundAt([a, b], documentAt), pageAt, toDateString, 0, Initial(None));
            && !r.aborted
            && |r.rows| == 2
            && r.rows[0].serial == 1 && r.rows[0].orderId == a.orderId
            && r.rows[1].serial == 2 && r.rows[1].orderId == b.orderId
  {
    var found := FoundAt([a, b], documentAt);
    var r := Capture([a, b], found, pageAt, toDateString, 0, Initial(None));
    TwoFound(a, b, documentAt);
    RunWritesInOrder([a, b], found, pageAt, toDateString, None);
    WritesTwo(a, b, toDateString, r);
  }

  lemma WritesTwo(a: Order, b: Order, toDateString: int -> string, r: Run)
    requires |a.orderItems| > 0 && |b.orderItems| > 0
    requires WritesInOrder([a, b], [0, 1], toDateString, r)
    ensures !r.aborted && |r.rows| == 2
    ensures r.rows[0].serial == 1 && r.rows[0].orderId == a.orderId
    ensures r.rows[1].serial == 2 && r.rows[1].orderId == b.orderId
  {
    assert MakeRecord(1, a, toDateString) == Some(r.rows[0]);
    assert MakeRecord(2, b, toDateString) == Some(r.rows[1]);
  }

  lemma ThreeSelectTwo(a: Order, b: Order, c: Order, cfg: Config)
    requires c.orderTime < cfg.start <= b.orderTime < a.orderTime <= cfg.end
    requires Contains(a.deliveryAddress, cfg.addressFilter) && Contains(b.deliveryAddress, cfg.addressFilter)
    ensures Select(SortByTimeDesc([a, b, c]), cfg) == [a, b]
  {
    ThreeSorted(a, b, c);
    SelectThree(a, b, c, cfg);
  }

  lemma SelectThree(a: Order, b: Order, c: Order, cfg: Config)
    requires c.orderTime < cfg.start <= b.orderTime < a.orderTime <= cfg.end
    requires Contains(a.deliveryAddress, cfg.addressFilter) && Contains(b.deliveryAddress, cfg.addressFilter)
    ensures Select([a, b, c], cfg) == [a, b]
  {
    assert [a, b, c][1..] == [b, c];
    assert [b, c][1..] == [c];
    assert Select([c], cfg) == [];
    assert Select([b, c], cfg) == [b];
  }

  lemma ThreeSorted(a: Order, b: Order, c: Order)
    requires c.orderTime < b.orderTime < a.orderTime
    ensures SortByTimeDesc([a, b, c]) == [a, b, c]
  {
    assert [a, b, c][1..] == [b, c];
    assert [b, c][1..] == [c];
    assert SortByTimeDesc([c]) == [c];
    assert SortByTimeDesc([b, c]) == [b, c];
  }

  lemma TwoFound(a: Order, b: Order, documentAt: nat -> seq<TextNode>)
    requires ClickOrderDetails(documentAt(0), a.orderId) && ClickOrderDetails(documentAt(1), b.orderId)
    ensures Successes([a, b], FoundAt([a, b], documentAt), 0) == [0, 1]
  {
    var found := FoundAt([a, b], documentAt);
    assert found(0) && found(1);
    assert Successes([a, b], found, 2) == [];
  }
}
