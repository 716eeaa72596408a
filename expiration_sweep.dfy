/** The periodic expiration sweep: find the documents that are expired or
    expire within the horizon, and for each post a note on its vehicle's
    feed and, when someone is responsible, schedule a to-do for them. */
module ExpirationSweep {
  import opened Records
  import opened ExpirationPolicy

  /** The look-ahead window of the sweep, in days. */
  const Horizon := 30

  /** The sweep's search: the date is set and on or before today + 30. */
  function ExpiringDomain(today: Day): Domain
  {
    [ExpirationSet, ExpirationLe(today + Horizon)]
  }

  predicate Due(d: Document, today: Day)
  {
    Matches(ExpiringDomain(today), d.expirationDate)
  }

  /** The selection has no lower bound and an inclusive upper bound:
      today + 30 is in, today + 31 is out, already expired dates are in,
      undated documents are out. */
  lemma DueIff(d: Document, today: Day)
    ensures Due(d, today) <==> d.expirationDate.Some? && d.expirationDate.value <= today + Horizon
    ensures d.expirationDate == Some(today + 30) ==> Due(d, today)
    ensures d.expirationDate == Some(today + 31) ==> !Due(d, today)
    ensures IsExpired(d.expirationDate, today) ==> Due(d, today)
  {
    var domain, date := ExpiringDomain(today), d.expirationDate;
    assert domain[1..] == [ExpirationLe(today + Horizon)] && domain[1..][1..] == [];
    assert Matches(domain[1..], date) <==> Holds(ExpirationLe(today + Horizon), date);
    assert Matches(domain, date) <==> Holds(ExpirationSet, date) && Matches(domain[1..], date);
  }

  // ---------------------------------------------------------------------------
  // The search result, in id order

  /** What the sweep's search returns when the table lists its ids as `ids`:
      the due documents, in that order. Each one has a date, on or before
      today + 30. */
  function Expiring(docs: map<DocId, Document>, ids: seq<DocId>, today: Day): (r: seq<DocId>)
    requires forall x :: x in ids ==> x in docs
    ensures forall j :: 0 <= j < |r| ==>
      && r[j] in docs
      && docs[r[j]].expirationDate.Some?
      && docs[r[j]].expirationDate.value <= today + Horizon
    decreases |ids|
  {
    if ids == [] then []
    else
      var x := ids[|ids| - 1];
      var init := Expiring(docs, ids[..|ids| - 1], today);
      if Due(docs[x], today) then DueIff(docs[x], today); init + [x] else init
  }

  /** The search returns exactly the due documents of the table. */
  lemma {:induction false} ExpiringIff(docs: map<DocId, Document>, ids: seq<DocId>, today: Day)
    requires forall x :: x in ids ==> x in docs
    ensures forall y :: y in Expiring(docs, ids, today) <==> y in ids && Due(docs[y], today)
    decreases |ids|
  {
    if ids != [] {
      var n := |ids| - 1;
      var x, pre := ids[n], ids[..n];
      assert ids == pre + [x];
      ExpiringIff(docs, pre, today);
    }
  }

  /** The search keeps the table's order, so its result is by increasing id. */
  lemma {:induction false} ExpiringIncreasing(docs: map<DocId, Document>, ids: seq<DocId>, today: Day)
    requires forall x :: x in ids ==> x in docs
    requires Increasing(ids)
    ensures Increasing(Expiring(docs, ids, today))
    decreases |ids|
  {
    if ids != [] {
      var n := |ids| - 1;
      var x, pre := ids[n], ids[..n];
      assert ids == pre + [x];
      ExpiringIncreasing(docs, pre, today);
      ExpiringIff(docs, pre, today);
      var init := Expiring(docs, pre, today);
      forall i | 0 <= i < |init| ensures init[i] < x {
        var y := init[i];
        assert y in init;
        var k :| 0 <= k < n && pre[k] == y;
      }
    }
  }

  /** The search of the sweep: a scan of the table in its order. */
  method SearchExpiring(docs: map<DocId, Document>, ids: seq<DocId>, today: Day) returns (found: seq<DocId>)
    requires forall x :: x in ids ==> x in docs
    ensures found == Expiring(docs, ids, today)
  {
    found := [];
    var i := 0;
    while i < |ids|
      invariant 0 <= i <= |ids|
      invariant found == Expiring(docs, ids[..i], today)
    {
      var x := ids[i];
      assert ids[..i + 1] == ids[..i] + [x] && x in ids;
      if Matches(ExpiringDomain(today), docs[x].expirationDate) {
        found := found + [x];
      }
      i := i + 1;
    }
    assert ids[..i] == ids;
  }

  /** On a consistent table the sweep selects every due document once, by
      increasing id, and nothing else. */
  lemma SweepSelection(docs: map<DocId, Document>, ids: seq<DocId>, today: Day)
    requires Increasing(ids) && forall x :: x in docs <==> x in ids
    ensures forall x :: x in Expiring(docs, ids, today) <==> x in docs && Due(docs[x], today)
    ensures Increasing(Expiring(docs, ids, today))
  {
    ExpiringIff(docs, ids, today);
    ExpiringIncreasing(docs, ids, today);
  }

  // ---------------------------------------------------------------------------
  // Notifications

  /** `manager_id or driver_id.user_id`: the manager, else the user in the
      driver's `user_id` field, else nobody. */
  function Responsible(v: Vehicle): (r: Option<UserId>)
    ensures v.manager.Some? ==> r == v.manager
    ensures v.manager.None? && v.driver.Some? ==> r == v.driver.value.user
    ensures r.None? <==> v.manager.None? && (v.driver.None? || v.driver.value.user.None?)
  {
    if v.manager.Some? then v.manager
    else if v.driver.Some? then v.driver.value.user
    else None
  }

  /** The message, chosen by the STORED expired flag: it names the document
      and the vehicle, gives the date and, when not expired, the stored day
      count. */
  function Notice(d: Document): (m: Message)
    requires d.expirationDate.Some?
    ensures m.Expired? <==> d.isExpired
    ensures m.document == d.name && m.vehicle == d.vehicle.name
    ensures m.Expired? ==> m.expiredOn == d.expirationDate.value
    ensures m.Upcoming? ==> m.expiresOn == d.expirationDate.value && m.days == d.daysToExpire
  {
    if d.isExpired then Expired(d.name, d.vehicle.name, d.expirationDate.value)
    else Upcoming(d.name, d.vehicle.name, d.expirationDate.value, d.daysToExpire)
  }

  predicate Dated(docs: map<DocId, Document>, ids: seq<DocId>)
  {
    forall j :: 0 <= j < |ids| ==> ids[j] in docs && docs[ids[j]].expirationDate.Some?
  }

  /** The note on the feed of the document's vehicle. */
  function PostFor(d: Document): (p: Post)
    requires d.expirationDate.Some?
    ensures p.vehicle == d.vehicle.id && p.body == Notice(d)
  {
    Post(d.vehicle.id, Notice(d))
  }

  /** The to-do for document `x`: none without a responsible user, else one,
      the one `ScheduledFor` describes. */
  function ActivitiesFor(x: DocId, d: Document): (r: seq<Activity>)
    requires d.expirationDate.Some?
    ensures |r| <= 1
    ensures r != [] <==> Responsible(d.vehicle).Some?
    ensures forall a :: a in r <==> ScheduledFor(x, d, a)
  {
    match Responsible(d.vehicle)
    case None => []
    case Some(u) => [Activity(x, d.expirationDate.value, Notice(d), u)]
  }

  /** `a` is the to-do scheduled for document `x`: assigned to the person
      responsible for its vehicle, due on its expiration date. */
  predicate ScheduledFor(x: DocId, d: Document, a: Activity)
    requires d.expirationDate.Some?
  {
    Responsible(d.vehicle).Some? && a == Activity(x, d.expirationDate.value, Notice(d), Responsible(d.vehicle).value)
  }

  /** The feed posts of a sweep over `ids`, in order. */
  function SweepPosts(docs: map<DocId, Document>, ids: seq<DocId>): (r: seq<Post>)
    requires Dated(docs, ids)
    ensures |r| == |ids|
    decreases |ids|
  {
    if ids == [] then []
    else SweepPosts(docs, ids[..|ids| - 1]) + [PostFor(docs[ids[|ids| - 1]])]
  }

  /** The to-dos of a sweep over `ids`, in order. */
  function SweepActivities(docs: map<DocId, Document>, ids: seq<DocId>): (r: seq<Activity>)
    requires Dated(docs, ids)
    ensures |r| <= |ids|
    decreases |ids|
  {
    if ids == [] then []
    else SweepActivities(docs, ids[..|ids| - 1]) + ActivitiesFor(ids[|ids| - 1], docs[ids[|ids| - 1]])
  }

  /** One pass of the sweep's loop body: post the note on the vehicle's feed
      and, when the vehicle has someone responsible, schedule their to-do. */
  method Notify(env: Env, x: DocId, d: Document)
    requires d.expirationDate.Some?
    modifies env
    ensures env.docs == old(env.docs) && env.ids == old(env.ids) && env.events == old(env.events)
    ensures env.posts == old(env.posts) + [PostFor(d)]
    ensures env.activities == old(env.activities) + ActivitiesFor(x, d)
  {
    var message := if d.isExpired then Expired(d.name, d.vehicle.name, d.expirationDate.value)
                   else Upcoming(d.name, d.vehicle.name, d.expirationDate.value, d.daysToExpire);
    var user := if d.vehicle.manager.Some? then d.vehicle.manager
                else if d.vehicle.driver.Some? then d.vehicle.driver.value.user
                else None;
    if user.None? {
      env.posts := env.posts + [Post(d.vehicle.id, message)];
      return;
    }
    env.posts := env.posts + [Post(d.vehicle.id, message)];
    env.activities := env.activities + [Activity(x, d.expirationDate.value, message, user.value)];
  }

  /** `_cron_check_document_expirations`: search, then notify about each
      document found, in order. */
  method CronCheckDocumentExpirations(env: Env, today: Day)
    requires env.Valid()
    modifies env
    ensures env.docs == old(env.docs) && env.ids == old(env.ids) && env.events == old(env.events)
    ensures env.posts == old(env.posts) + SweepPosts(old(env.docs), Expiring(old(env.docs), old(env.ids), today))
    ensures env.activities == old(env.activities) + SweepActivities(old(env.docs), Expiring(old(env.docs), old(env.ids), today))
  {
    var found := SearchExpiring(env.docs, env.ids, today);
    var i := 0;
    while i < |found|
      invariant 0 <= i <= |found|
      invariant env.docs == old(env.docs) && env.ids == old(env.ids) && env.events == old(env.events)
      invariant env.posts == old(env.posts) + SweepPosts(env.docs, found[..i])
      invariant env.activities == old(env.activities) + SweepActivities(env.docs, found[..i])
    {
      assert found[..i + 1][..i] == found[..i];
      Notify(env, found[i], env.docs[found[i]]);
      i := i + 1;
    }
    assert found[..i] == found;
  }

  // ---------------------------------------------------------------------------
  // What the sweep promises

  /** One note per document found, in the search order, each on the feed of
      that document's vehicle. */
  lemma {:induction false} SweepPostsAt(docs: map<DocId, Document>, ids: seq<DocId>)
    requires Dated(docs, ids)
    ensures |SweepPosts(docs, ids)| == |ids|
    ensures forall j :: 0 <= j < |ids| ==> SweepPosts(docs, ids)[j] == PostFor(docs[ids[j]])
    ensures forall j :: 0 <= j < |ids| ==> SweepPosts(docs, ids)[j].vehicle == docs[ids[j]].vehicle.id
    decreases |ids|
  {
    if ids != [] {
      var n := |ids| - 1;
      var pre := ids[..n];
      assert Dated(docs, pre) by {
        forall j | 0 <= j < n ensures pre[j] in docs && docs[pre[j]].expirationDate.Some? {
          assert pre[j] == ids[j];
        }
      }
      SweepPostsAt(docs, pre);
      forall j | 0 <= j < n ensures SweepPosts(docs, ids)[j] == PostFor(docs[ids[j]]) {
        assert pre[j] == ids[j];
      }
    }
  }

  /** A to-do is scheduled for a document found exactly when its vehicle has
      someone responsible, and it is theirs, due on the expiration date. */
  lemma {:induction false} SweepActivitiesIff(docs: map<DocId, Document>, ids: seq<DocId>, a: Activity)
    requires Dated(docs, ids)
    ensures a in SweepActivities(docs, ids) <==> exists j :: 0 <= j < |ids| && ScheduledFor(ids[j], docs[ids[j]], a)
    ensures |SweepActivities(docs, ids)| <= |ids|
    decreases |ids|
  {
    if ids != [] {
      var n := |ids| - 1;
      var x, pre := ids[n], ids[..n];
      assert Dated(docs, pre) by {
        forall j | 0 <= j < n ensures pre[j] in docs && docs[pre[j]].expirationDate.Some? {
          assert pre[j] == ids[j];
        }
      }
      SweepActivitiesIff(docs, pre, a);
      var last := ActivitiesFor(x, docs[x]);
      assert SweepActivities(docs, ids) == SweepActivities(docs, pre) + last;
      if a in SweepActivities(docs, ids) {
        if a in SweepActivities(docs, pre) {
          var j :| 0 <= j < n && ScheduledFor(pre[j], docs[pre[j]], a);
          assert pre[j] == ids[j];
        } else {
          assert a in last;
        }
      }
      if exists j :: 0 <= j < |ids| && ScheduledFor(ids[j], docs[ids[j]], a) {
        var j :| 0 <= j < |ids| && ScheduledFor(ids[j], docs[ids[j]], a);
        if j < n {
          assert pre[j] == ids[j];
        } else {
          assert a in last;
        }
      }
    }
  }

  /** How many of the documents `ids` have someone responsible. */
  function CountResponsible(docs: map<DocId, Document>, ids: seq<DocId>): nat
    requires forall j :: 0 <= j < |ids| ==> ids[j] in docs
    decreases |ids|
  {
    if ids == [] then 0
    else CountResponsible(docs, ids[..|ids| - 1]) + (if Responsible(docs[ids[|ids| - 1]].vehicle).Some? then 1 else 0)
  }

  /** One to-do per document found that has someone responsible, no other;
      over the increasing ids of the search they come in id order, so no
      document gets two. */
  lemma {:induction false} SweepActivitiesOrdered(docs: map<DocId, Document>, ids: seq<DocId>)
    requires Dated(docs, ids)
    ensures |SweepActivities(docs, ids)| == CountResponsible(docs, ids)
    ensures Increasing(ids) ==>
      forall p, q :: 0 <= p < q < |SweepActivities(docs, ids)| ==>
        SweepActivities(docs, ids)[p].document < SweepActivities(docs, ids)[q].document
    decreases |ids|
  {
    if ids != [] {
      var n := |ids| - 1;
      var x, pre := ids[n], ids[..n];
      assert Dated(docs, pre) by {
        forall j | 0 <= j < n ensures pre[j] in docs && docs[pre[j]].expirationDate.Some? {
          assert pre[j] == ids[j];
        }
      }
      SweepActivitiesOrdered(docs, pre);
      var init, last := SweepActivities(docs, pre), ActivitiesFor(x, docs[x]);
      assert SweepActivities(docs, ids) == init + last;
      if Increasing(ids) {
        forall p | 0 <= p < |init| ensures init[p].document < x {
          var a := init[p];
          SweepActivitiesIff(docs, pre, a);
          var j :| 0 <= j < n && ScheduledFor(pre[j], docs[pre[j]], a);
          assert pre[j] == ids[j];
        }
        forall q | 0 <= q < |last| ensures last[q].document == x {
          assert last[q] in last;
        }
      }
    }
  }

  /** With freshly recomputed fields the note tells the truth: it reports an
      expiry exactly when the date has passed, and otherwise a number of
      days within the horizon. */
  lemma FreshNotice(d: Document, today: Day)
    requires Recomputed(d, today) && Due(d, today)
    ensures d.expirationDate.Some?
    ensures Notice(d).Expired? <==> IsExpired(d.expirationDate, today)
    ensures Notice(d).Upcoming? ==> 0 <= Notice(d).days <= Horizon
    ensures Notice(d).Upcoming? ==> Notice(d).expiresOn == today + Notice(d).days
  {
    DueIff(d, today);
  }

  /** The note is chosen by the STORED flag: a document last recomputed the
      day before it expired is announced as expiring "in 0 days" although
      its date has passed. */
  lemma StaleFlagMisreports(d: Document, today: Day)
    requires Recomputed(d, today - 1) && d.expirationDate == Some(today - 1)
    ensures Due(d, today) && IsExpired(d.expirationDate, today)
    ensures Notice(d) == Upcoming(d.name, d.vehicle.name, today - 1, 0)
  {
    DueIff(d, today);
  }
}
