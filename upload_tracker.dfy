/**
 * The per-email upload quota tracker. The document collection is a map from
 * the normalised email to its record; the read operations are lookups on the
 * current map, and `RecordUpload` is the only operation that writes.
 */
module UploadTracker {
  import opened Options
  import opened Strings

  /** The ceiling on successful uploads per email. */
  const MaxUploadsPerEmail: nat := 2

  /** The error `RecordUpload` reports once the ceiling is reached. */
  const LimitReachedError: string := "Maximum 2 uploads per email reached"

  /** One recorded upload; the timestamp is the instant the write happened, taken as a parameter. */
  datatype UploadEvent = UploadEvent(timestamp: string, fileName: string, fileId: Option<string>)

  /** The stored document for one email. */
  datatype UploadRecord = UploadRecord(email: string, count: nat, uploads: seq<UploadEvent>)

  /** What `RecordUpload` reports back to its caller. */
  datatype RecordResult = RecordResult(success: bool, remaining: int, error: Option<string>)

  /** `email.toLowerCase().trim()`: the key under which every operation looks an email up. */
  function Normalize(email: string): (key: string)
    ensures |key| <= |email|
  {
    Trim(ToLower(email))
  }

  /**
   * A normalised email has no capital letter and no whitespace at either end,
   * and it is the lower-cased email with only whitespace dropped at its ends.
   */
  lemma NormalizeSpec(email: string)
    ensures var key := Normalize(email);
      |key| <= |email|
      && (forall i :: 0 <= i < |key| ==> !IsUpper(key[i]))
      && (key == [] || (!IsWhitespace(key[0]) && !IsWhitespace(key[|key| - 1])))
    ensures var l := ToLower(email); var k := |l| - |TrimStart(l)|;
      k + |Normalize(email)| <= |l| && Normalize(email) == l[k..k + |Normalize(email)|]
    ensures var l := ToLower(email);
      forall i :: 0 <= i < |l| - |TrimStart(l)| ==> IsWhitespace(l[i])
    ensures var l := ToLower(email);
      forall i :: |l| - |TrimStart(l)| + |Normalize(email)| <= i < |l| ==> IsWhitespace(l[i])
  {
    var l := ToLower(email);
    ToLowerSpec(email);
    TrimSpec(l);
    var k := |l| - |TrimStart(l)|;
    var key := Trim(l);
    forall i | 0 <= i < |key|
      ensures !IsUpper(key[i])
    {
      assert key[i] == l[k + i];
    }
  }

  /** Normalising a normalised email changes nothing. */
  lemma NormalizeIdempotent(email: string)
    ensures Normalize(Normalize(email)) == Normalize(email)
  {
    var l := ToLower(email);
    TrimToLower(Trim(l));
    TrimIdempotent(l);
    TrimToLower(l);
    ToLowerIdempotent(email);
  }

  /**
   * A stored record is well formed when it sits under its own email, its
   * count is the length of its history, and the ceiling holds.
   */
  predicate WellFormed(key: string, rec: UploadRecord) {
    rec.email == key && rec.count == |rec.uploads| && rec.count <= MaxUploadsPerEmail
  }

  class Tracker {
    /** The `uploads` collection: normalised email to record. */
    var table: map<string, UploadRecord>

    /** Every stored record is well formed. */
    ghost predicate Consistent()
      reads this
    {
      forall key :: key in table ==> WellFormed(key, table[key])
    }

    /** Every key is already normalised, so it is the key of the emails that normalise to it. */
    ghost predicate KeysNormalized()
      reads this
    {
      forall key :: key in table ==> Normalize(key) == key
    }

    ghost predicate Valid()
      reads this
    {
      Consistent() && KeysNormalized()
    }

    constructor ()
      ensures Valid() && table == map[]
    {
      table := map[];
    }

    /** `getUploadCount`: the stored count, or 0 when the email has no record. */
    function GetUploadCount(email: string): (n: nat)
      reads this
      ensures Normalize(email) !in table ==> n == 0
      ensures Consistent() ==> n == |GetUploadHistory(email)| && n <= MaxUploadsPerEmail
    {
      var key := Normalize(email);
      if key in table then table[key].count else 0
    }

    /** `getUploadHistory`: the stored events in insertion order, or none when the email has no record. */
    function GetUploadHistory(email: string): (h: seq<UploadEvent>)
      reads this
      ensures Normalize(email) !in table ==> h == []
      ensures Consistent() ==> |h| <= MaxUploadsPerEmail
    {
      var key := Normalize(email);
      if key in table then table[key].uploads else []
    }

    /** `canUpload`: whether another upload is allowed under the ceiling. */
    function CanUpload(email: string): (b: bool)
      reads this
      ensures Normalize(email) !in table ==> b
      ensures Consistent() ==> (b <==> |GetUploadHistory(email)| < MaxUploadsPerEmail)
    {
      GetUploadCount(email) < MaxUploadsPerEmail
    }

    /** `getRemainingUploads`: `max(0, 2 - count)`. */
    function GetRemainingUploads(email: string): (r: nat)
      reads this
      ensures r <= MaxUploadsPerEmail
      ensures r > 0 <==> CanUpload(email)
      ensures CanUpload(email) ==> r + GetUploadCount(email) == MaxUploadsPerEmail
    {
      if GetUploadCount(email) < MaxUploadsPerEmail then MaxUploadsPerEmail - GetUploadCount(email) else 0
    }

    /**
     * `recordUpload`: read the record, reject at the ceiling, otherwise upsert
     * it by incrementing the count and appending one event. The source does the
     * read and the write as two separate database calls, so two concurrent
     * calls can both pass the check; this sequential model does not show that.
     */
    method RecordUpload(email: string, fileName: string, fileId: Option<string>, now: string)
      returns (r: RecordResult)
      modifies this
      ensures r.success <==> old(CanUpload(email))
      ensures !r.success ==> r == RecordResult(false, 0, Some(LimitReachedError)) && table == old(table)
      ensures r.success ==> r.error.None? && r.remaining == MaxUploadsPerEmail - (old(GetUploadCount(email)) + 1)
      ensures r.success ==> Normalize(email) in table && table == old(table)[Normalize(email) := table[Normalize(email)]]
      ensures r.success ==>
        GetUploadCount(email) == old(GetUploadCount(email)) + 1
        && GetUploadHistory(email) == old(GetUploadHistory(email)) + [UploadEvent(now, fileName, fileId)]
        && table[Normalize(email)].email ==
             (if Normalize(email) in old(table) then old(table)[Normalize(email)].email else Normalize(email))
      ensures old(Consistent()) ==> Consistent()
      ensures old(KeysNormalized()) ==> KeysNormalized()
      ensures old(Valid()) ==> Valid()
    {
      var key := Normalize(email);
      var record := if key in table then Some(table[key]) else None;
      if record.Some? && record.value.count >= MaxUploadsPerEmail {
        return RecordResult(false, 0, Some(LimitReachedError));
      }
      var event := UploadEvent(now, fileName, fileId);
      var updated := match record
        case Some(rec) => UploadRecord(rec.email, rec.count + 1, rec.uploads + [event])
        case None => UploadRecord(key, 1, [event]);
      NormalizeIdempotent(email);
      assert old(Consistent()) ==> WellFormed(key, updated);
      // updateOne with $inc, $push and $setOnInsert, upserting
      table := table[key := updated];
      var newCount := (if record.Some? then record.value.count else 0) + 1;
      r := RecordResult(true, MaxUploadsPerEmail - newCount, None);
    }
  }

  /** Two emails that normalise alike name the same submitter for every read. */
  lemma SameSubmitterSameView(t: Tracker, a: string, b: string)
    requires Normalize(a) == Normalize(b)
    ensures t.GetUploadCount(a) == t.GetUploadCount(b)
    ensures t.GetUploadHistory(a) == t.GetUploadHistory(b)
    ensures t.CanUpload(a) == t.CanUpload(b)
    ensures t.GetRemainingUploads(a) == t.GetRemainingUploads(b)
  {
  }

  /** A fresh email: count 0, allowed to upload, empty history. */
  method FreshEmail(email: string) returns (count: nat, allowed: bool, history: seq<UploadEvent>)
    ensures count == 0 && allowed && history == []
  {
    var t := new Tracker();
    count := t.GetUploadCount(email);
    allowed := t.CanUpload(email);
    history := t.GetUploadHistory(email);
  }

  /** Two uploads for one email are kept in the order they were recorded. */
  method HistoryInOrder(email: string, firstAt: string, secondAt: string) returns (history: seq<UploadEvent>)
    ensures history == [UploadEvent(firstAt, "a.mp4", None), UploadEvent(secondAt, "b.mp4", None)]
  {
    var t := new Tracker();
    var first := t.RecordUpload(email, "a.mp4", None, firstAt);
    assert t.GetUploadHistory(email) == [UploadEvent(firstAt, "a.mp4", None)];
    var second := t.RecordUpload(email, "b.mp4", None, secondAt);
    history := t.GetUploadHistory(email);
  }

  /** Once two uploads are recorded, a third is rejected and changes nothing. */
  method ThirdUploadRejected(email: string, fileName: string, now: string)
    returns (third: RecordResult, count: nat, history: seq<UploadEvent>)
    ensures third == RecordResult(false, 0, Some(LimitReachedError))
    ensures count == 2 && |history| == 2
  {
    var t := new Tracker();
    var first := t.RecordUpload(email, fileName, None, now);
    var second := t.RecordUpload(email, fileName, None, now);
    third := t.RecordUpload(email, fileName, None, now);
    count := t.GetUploadCount(email);
    history := t.GetUploadHistory(email);
  }

  /** Capital letters and whitespace around the email do not make a different submitter. */
  lemma NormalizeIgnoresCaseAndPadding(email: string, lead: string, trail: string)
    requires AllWhitespace(lead) && AllWhitespace(trail)
    ensures Normalize(lead + email + trail) == Normalize(ToLower(email)) == Normalize(email)
  {
    ToLowerConcat(lead + email, trail);
    ToLowerConcat(lead, email);
    ToLowerWhitespace(lead);
    ToLowerWhitespace(trail);
    TrimPadding(lead, ToLower(email), trail);
    ToLowerIdempotent(email);
  }

  /**
   * An upload recorded under a padded spelling of an email (such as
   * `"Foo@Bar.com "`) is counted under its lower-case spelling.
   */
  method CountSharedAcrossSpellings(email: string, trail: string, fileName: string, now: string)
    returns (count: nat)
    requires AllWhitespace(trail)
    ensures count == 1
  {
    var t := new Tracker();
    TrailingPadding(email, trail);
    var r := t.RecordUpload(email + trail, fileName, None, now);
    assert t.table[Normalize(email + trail)].count == 1;
    count := t.GetUploadCount(ToLower(email));
  }

  /** Trailing whitespace and capitals do not change the key. */
  lemma TrailingPadding(email: string, trail: string)
    requires AllWhitespace(trail)
    ensures Normalize(email + trail) == Normalize(ToLower(email))
  {
    var l := ToLower(email);
    ToLowerConcat(email, trail);
    ToLowerWhitespace(trail);
    assert ToLower(email + trail) == l + trail;
    TrimStartAppend(l, trail);
    if TrimStart(l) != [] {
      TrimEndTrailing(TrimStart(l), trail);
    }
    ToLowerIdempotent(email);
  }
}
