/** The expiration policy of a document: the two computed fields and the
    translation of a search on `is_expired` into a condition on the
    expiration date. */
module ExpirationPolicy {
  import opened Records

  /** `is_expired`: the date is set and strictly before today, that is, the
      date is set and lies a negative number of days away. */
  predicate IsExpired(date: Option<Day>, today: Day): (r: bool)
    ensures r ==> date.Some?
    ensures r <==> date.Some? && DaysToExpire(date, today) < 0
  {
    date.Some? && date.value < today
  }

  /** `days_to_expire`: signed days from today to the date, 0 when unset. */
  function DaysToExpire(date: Option<Day>, today: Day): (r: int)
    ensures date.Some? ==> today + r == date.value
    ensures date.None? ==> r == 0
  {
    match date
    case Some(d) => d - today
    case None => 0
  }

  /** The stored computed fields of `d` agree with its date and `today`. */
  predicate Recomputed(d: Document, today: Day)
  {
    d.isExpired == IsExpired(d.expirationDate, today) && d.daysToExpire == DaysToExpire(d.expirationDate, today)
  }

  /** For a dated document the sign of `days_to_expire` tells the state:
      negative exactly when expired, zero exactly on the expiration day. */
  lemma DaysToExpireSign(date: Option<Day>, today: Day)
    requires date.Some?
    ensures DaysToExpire(date, today) < 0 <==> IsExpired(date, today)
    ensures DaysToExpire(date, today) == 0 <==> date.value == today
    ensures date.value == today + DaysToExpire(date, today)
  {
  }

  /** An undated document is never expired and is 0 days from expiring. */
  lemma UndatedIsNotExpired(today: Day)
    ensures !IsExpired(None, today) && DaysToExpire(None, today) == 0
  {
  }

  /** `_compute_is_expired` over the record set `ids`. */
  method ComputeIsExpired(env: Env, ids: seq<DocId>, today: Day)
    requires forall x :: x in ids ==> x in env.docs
    modifies env
    ensures env.docs.Keys == old(env.docs).Keys
    ensures forall x :: x in env.docs ==>
      env.docs[x] == if x in ids then old(env.docs)[x].(isExpired := IsExpired(old(env.docs)[x].expirationDate, today))
                     else old(env.docs)[x]
    ensures env.ids == old(env.ids) && env.events == old(env.events)
    ensures env.posts == old(env.posts) && env.activities == old(env.activities)
  {
    var i := 0;
    while i < |ids|
      invariant 0 <= i <= |ids|
      invariant env.docs.Keys == old(env.docs).Keys
      invariant forall x :: x in env.docs ==>
        env.docs[x] == if x in ids[..i] then old(env.docs)[x].(isExpired := IsExpired(old(env.docs)[x].expirationDate, today))
                       else old(env.docs)[x]
      invariant env.ids == old(env.ids) && env.events == old(env.events)
      invariant env.posts == old(env.posts) && env.activities == old(env.activities)
    {
      var x := ids[i];
      var d := env.docs[x];
      env.docs := env.docs[x := d.(isExpired := d.expirationDate.Some? && d.expirationDate.value < today)];
      assert ids[..i + 1] == ids[..i] + [x];
      i := i + 1;
    }
    assert ids[..i] == ids;
  }

  /** `_compute_days_to_expire` over the record set `ids`. */
  method ComputeDaysToExpire(env: Env, ids: seq<DocId>, today: Day)
    requires forall x :: x in ids ==> x in env.docs
    modifies env
    ensures env.docs.Keys == old(env.docs).Keys
    ensures forall x :: x in env.docs ==>
      env.docs[x] == if x in ids then old(env.docs)[x].(daysToExpire := DaysToExpire(old(env.docs)[x].expirationDate, today))
                     else old(env.docs)[x]
    ensures env.ids == old(env.ids) && env.events == old(env.events)
    ensures env.posts == old(env.posts) && env.activities == old(env.activities)
  {
    var i := 0;
    while i < |ids|
      invariant 0 <= i <= |ids|
      invariant env.docs.Keys == old(env.docs).Keys
      invariant forall x :: x in env.docs ==>
        env.docs[x] == if x in ids[..i] then old(env.docs)[x].(daysToExpire := DaysToExpire(old(env.docs)[x].expirationDate, today))
                       else old(env.docs)[x]
      invariant env.ids == old(env.ids) && env.events == old(env.events)
      invariant env.posts == old(env.posts) && env.activities == old(env.activities)
    {
      var x := ids[i];
      var d := env.docs[x];
      if d.expirationDate.Some? {
        env.docs := env.docs[x := d.(daysToExpire := d.expirationDate.value - today)];
      } else {
        env.docs := env.docs[x := d.(daysToExpire := 0)];
      }
      assert ids[..i + 1] == ids[..i] + [x];
      i := i + 1;
    }
    assert ids[..i] == ids;
  }

  // ---------------------------------------------------------------------------
  // Search domains on `expiration_date`

  /** One leaf of a search domain on `expiration_date`. As in SQL, a
      comparison never holds for an unset date. */
  datatype Leaf =
    | ExpirationLt(d: Day)      // ('expiration_date', '<', d)
    | ExpirationGe(d: Day)      // ('expiration_date', '>=', d)
    | ExpirationLe(d: Day)      // ('expiration_date', '<=', d)
    | ExpirationSet             // ('expiration_date', '!=', False)

  /** A domain is the conjunction of its leaves; `[]` constrains nothing. */
  type Domain = seq<Leaf>

  predicate Holds(leaf: Leaf, date: Option<Day>)
  {
    match leaf
    case ExpirationLt(d) => date.Some? && date.value < d
    case ExpirationGe(d) => date.Some? && date.value >= d
    case ExpirationLe(d) => date.Some? && date.value <= d
    case ExpirationSet => date.Some?
  }

  predicate Matches(domain: Domain, date: Option<Day>)
  {
    domain == [] || (Holds(domain[0], date) && Matches(domain[1..], date))
  }

  /** The right-hand side of a search condition: a Python boolean, or
      anything else (which is never `True` or `False` by identity). */
  datatype SearchValue = BoolValue(b: bool) | OtherValue

  /** `_search_is_expired`: `= True` is "expired"; `= False` and also
      `!= False` are "dated and not expired"; anything else is unconstrained. */
  function SearchIsExpired(operator: string, value: SearchValue, today: Day): (r: Domain)
    ensures operator == "=" && value == BoolValue(true) ==>
      forall date :: Matches(r, date) <==> IsExpired(date, today)
    ensures (operator == "=" || operator == "!=") && value == BoolValue(false) ==>
      forall date :: Matches(r, date) <==> date.Some? && !IsExpired(date, today)
    ensures !(operator == "=" && value == BoolValue(true)) &&
            !((operator == "=" || operator == "!=") && value == BoolValue(false)) ==>
      forall date :: Matches(r, date)
  {
    if operator == "=" && value == BoolValue(true) then [ExpirationLt(today)]
    else if (operator == "=" || operator == "!=") && value == BoolValue(false) then [ExpirationGe(today)]
    else []
  }

  /** `is_expired != False` is read as `is_expired = False`: it selects the
      documents that are NOT expired, and misses every expired one. */
  lemma NotFalseSearchIsEqualFalse(today: Day, date: Option<Day>)
    ensures SearchIsExpired("!=", BoolValue(false), today) == SearchIsExpired("=", BoolValue(false), today)
    ensures IsExpired(date, today) ==> !Matches(SearchIsExpired("!=", BoolValue(false), today), date)
  {
  }

  /** A document without a date has `is_expired` False, yet the search for
      `is_expired = False` does not find it. */
  lemma UndatedMissedByNotExpiredSearch(today: Day)
    ensures !IsExpired(None, today)
    ensures !Matches(SearchIsExpired("=", BoolValue(false), today), None)
  {
  }

  /** On recomputed documents, searching `is_expired = True` selects exactly
      the documents whose stored flag is set, and `is_expired = False` exactly
      the dated ones whose flag is clear. */
  lemma SearchAgreesWithStoredFlag(d: Document, today: Day)
    requires Recomputed(d, today)
    ensures Matches(SearchIsExpired("=", BoolValue(true), today), d.expirationDate) <==> d.isExpired
    ensures Matches(SearchIsExpired("=", BoolValue(false), today), d.expirationDate) <==>
      d.expirationDate.Some? && !d.isExpired
  {
  }
}
