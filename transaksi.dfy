/**
 * The status rules of the transaction controller: the status normaliser,
 * the status filter of the listing, the page-size clamp, the status
 * defaulting of create and update, and the explicit status transition with
 * its timestamp and ticket side effects.
 */
module Transaksi {
  import opened Wrappers
  import opened Php

  /** Values mapped to "sukses" after lower-casing and trimming. */
  const SuccessSynonyms: set<string> := {"success", "completed", "selesai"}
  /** Values mapped to "batal" after lower-casing and trimming. */
  const CancelSynonyms: set<string> := {"cancel", "canceled", "batal", "failed"}
  /** The status a transaction gets when none is given. */
  const DefaultStatus: string := "pending"
  /** The canonical statuses a transaction is meant to carry. */
  const CanonicalStatuses: set<string> := {"pending", "sukses", "batal"}

  /** The words the status transition's validation accepts (exact match). */
  const SetStatusVocabulary: set<string> :=
    {"pending", "sukses", "success", "selesai", "batal", "cancel", "canceled"}
  /** The part of that vocabulary that means a paid transaction. */
  const PaidRequests: set<string> := {"sukses", "success", "selesai"}
  /** The part of that vocabulary that means a cancelled transaction. */
  const CancelRequests: set<string> := {"batal", "cancel", "canceled"}

  /** The synonym table applied to an already lower-cased, trimmed value. */
  function Synonym(v: string): (r: string)
    ensures r == v || r == "sukses" || r == "batal"
  {
    if v in SuccessSynonyms then "sukses"
    else if v in CancelSynonyms then "batal"
    else v
  }

  predicate IsLowerCase(s: string) {
    forall k :: 0 <= k < |s| ==> !('A' <= s[k] <= 'Z')
  }

  /**
   * normalizeStatus: null for a null or falsy input, otherwise the synonym
   * of the lower-cased, trimmed input.
   */
  function NormalizeStatus(status: Option<string>): (r: Option<string>)
    ensures r.None? <==> !TruthyOpt(status)
    ensures r.Some? ==> IsTrimmed(r.value) && IsLowerCase(r.value)
  {
    if !TruthyOpt(status) then None
    else
      var t := Trim(status.value);
      ToLowerKeepsTrimmed(t);
      var l := ToLower(t);
      assert IsLowerCase(l);
      assert IsTrimmed("sukses") && IsLowerCase("sukses") && IsTrimmed("batal") && IsLowerCase("batal");
      Some(Synonym(l))
  }

  /** An input that is already clean only goes through the synonym table. */
  lemma NormalizeClean(s: string)
    requires Truthy(s) && IsTrimmed(s) && IsLowerCase(s)
    ensures NormalizeStatus(Some(s)) == Some(Synonym(s))
  {
    ToLowerFixed(s);
  }

  /** The synonym table yields "sukses" exactly for the success words and "sukses" itself. */
  lemma SynonymSukses(v: string)
    ensures Synonym(v) == "sukses" <==> v in SuccessSynonyms + {"sukses"}
  {
    assert "sukses" !in SuccessSynonyms + CancelSynonyms;
  }

  /** The synonym table yields "batal" exactly for the cancel words. */
  lemma SynonymBatal(v: string)
    ensures Synonym(v) == "batal" <==> v in CancelSynonyms
  {
    assert "batal" in CancelSynonyms;
  }

  /** Normalisation yields "sukses" exactly for the success words and "sukses" itself. */
  lemma NormalizeToSukses(s: string)
    ensures NormalizeStatus(Some(s)) == Some("sukses")
        <==> Truthy(s) && ToLower(Trim(s)) in SuccessSynonyms + {"sukses"}
  {
    if Truthy(s) {
      var v := ToLower(Trim(s));
      assert NormalizeStatus(Some(s)) == Some(Synonym(v));
      SynonymSukses(v);
    }
  }

  /** Normalisation yields "batal" exactly for the cancel words. */
  lemma NormalizeToBatal(s: string)
    ensures NormalizeStatus(Some(s)) == Some("batal")
        <==> Truthy(s) && ToLower(Trim(s)) in CancelSynonyms
  {
    if Truthy(s) {
      var v := ToLower(Trim(s));
      assert NormalizeStatus(Some(s)) == Some(Synonym(v));
      SynonymBatal(v);
    }
  }

  /** Any other truthy input comes back lower-cased and trimmed. */
  lemma NormalizePassesThrough(s: string)
    requires Truthy(s)
    requires ToLower(Trim(s)) !in SuccessSynonyms + CancelSynonyms
    ensures NormalizeStatus(Some(s)) == Some(ToLower(Trim(s)))
  {
    var v := ToLower(Trim(s));
    assert NormalizeStatus(Some(s)) == Some(Synonym(v));
  }

  /** A non-empty, whitespace-only input normalises to "", not to null. */
  lemma NormalizeBlank(s: string)
    requires s != []
    requires forall k :: 0 <= k < |s| ==> IsTrimChar(s[k])
    ensures NormalizeStatus(Some(s)) == Some("")
  {
    assert s[0] != '0';
    var v := ToLower(Trim(s));
    assert v == "";
    assert NormalizeStatus(Some(s)) == Some(Synonym(v));
  }

  /** Normalising a truthy result again changes nothing. */
  lemma NormalizeIdempotent(s: Option<string>)
    requires NormalizeStatus(s).Some? && Truthy(NormalizeStatus(s).value)
    ensures NormalizeStatus(NormalizeStatus(s)) == NormalizeStatus(s)
  {
    var r := NormalizeStatus(s).value;
    NormalizeClean(r);
    var v := ToLower(Trim(s.value));
    assert r == Synonym(v);
    if v in SuccessSynonyms {
      assert r == "sukses" && r !in SuccessSynonyms && r !in CancelSynonyms;
    } else if v in CancelSynonyms {
      assert r == "batal" && r in CancelSynonyms;
    } else {
      assert r == v;
    }
  }

  /** Full idempotence fails: one blank input normalises to "", which normalises to null. */
  lemma NormalizeBlankNotIdempotent()
    ensures NormalizeStatus(Some(" ")) == Some("")
    ensures NormalizeStatus(NormalizeStatus(Some(" "))) == None
  {
    NormalizeBlank(" ");
  }

  /** The accepted words are already trimmed, lower-case and truthy. */
  lemma VocabularyIsClean(s: string)
    requires s in SetStatusVocabulary
    ensures Truthy(s) && IsTrimmed(s) && IsLowerCase(s)
  {
  }

  /** The synonym table sends each accepted word to the canonical status it means. */
  lemma VocabularySynonyms(s: string)
    requires s in SetStatusVocabulary
    ensures Synonym(s) in CanonicalStatuses
    ensures Synonym(s) == "sukses" <==> s in PaidRequests
    ensures Synonym(s) == "batal" <==> s in CancelRequests
  {
    SynonymSukses(s);
    SynonymBatal(s);
  }

  /** Every word the transition accepts normalises to a canonical status, and to the right one. */
  lemma VocabularyNormalizes(s: string)
    requires s in SetStatusVocabulary
    ensures NormalizeStatus(Some(s)) == Some(Synonym(s))
    ensures Synonym(s) in CanonicalStatuses
    ensures Synonym(s) == "sukses" <==> s in PaidRequests
    ensures Synonym(s) == "batal" <==> s in CancelRequests
  {
    VocabularyIsClean(s);
    NormalizeClean(s);
    VocabularySynonyms(s);
  }

  /** The status filter of the listing: applied only when the normalised value is truthy. */
  function StatusFilter(query: Option<string>): (r: Option<string>)
    ensures r.Some? ==> Truthy(r.value) && NormalizeStatus(query) == r
    ensures r.None? ==> NormalizeStatus(query).None? || !Truthy(NormalizeStatus(query).value)
  {
    var n := NormalizeStatus(query);
    if n.Some? && Truthy(n.value) then n else None
  }

  /**
   * The page size of the listing. `perPage` is the integer cast of the
   * `per_page` query value, None when the parameter is absent.
   */
  function PerPage(perPage: Option<int>): (r: int)
    ensures 5 <= r <= 100
    ensures perPage.None? ==> r == 15
    ensures perPage.Some? && 5 <= perPage.value <= 100 ==> r == perPage.value
    ensures perPage.Some? && perPage.value < 5 ==> r == 5
    ensures perPage.Some? && perPage.value > 100 ==> r == 100
  {
    var n := perPage.GetOr(15);
    if n < 5 then 5 else if n > 100 then 100 else n
  }

  /** A field of a validated request: not sent, sent as null, or sent with a value. */
  datatype Field<T> = Absent | Null | Given(value: T)

  /** The status create persists: never null, "pending" unless a truthy value normalises otherwise. */
  function StoreStatus(f: Field<string>): (s: string)
    ensures !(f.Given? && Truthy(f.value)) ==> s == "pending"
    ensures f.Given? && Truthy(f.value) ==> Some(s) == NormalizeStatus(Some(f.value))
  {
    var given := if f.Given? then f.value else DefaultStatus;
    VocabularyNormalizes(DefaultStatus);
    NormalizeStatus(Some(given)).GetOr(DefaultStatus)
  }

  /**
   * The status update persists over `current`: unchanged when the field is
   * absent, null when sent as null (isset is false, so the null is filled
   * in), and otherwise defaulted exactly as on create.
   */
  function UpdatedStatus(current: Option<string>, f: Field<string>): (r: Option<string>)
    ensures f.Absent? ==> r == current
    ensures f.Null? ==> r == None
    ensures f.Given? ==> r == Some(StoreStatus(f))
  {
    match f
    case Absent => current
    case Null => None
    case Given(v) => Some(NormalizeStatus(Some(v)).GetOr(DefaultStatus))
  }

  /** An instant in some timezone; converting the zone keeps the epoch. */
  datatype Instant = Instant(epoch: int, zone: string)

  /** A transaction row. */
  datatype Transaksi = Transaksi(
    customerId: Option<int>,
    kasirId: Option<int>,
    tanggalTransaksi: Option<Instant>,
    status: Option<string>,
    paymentMethod: Option<string>,
    paidAt: Option<Instant>)

  /** A detail row: the transaction it belongs to and its (nullable) ticket. */
  datatype Detail = Detail(transaksiId: int, tiketId: Option<int>)

  /** The status-change request, including the two header fallbacks. */
  datatype StatusRequest = StatusRequest(
    status: Option<string>,
    clientTime: Option<string>,
    clientTz: Option<string>,
    timeHeader: Option<string>,
    tzHeader: Option<string>)

  /**
   * What the server contributes: its clock, the date parser (None when
   * parsing throws) and the set of timezone names setTimezone accepts.
   */
  datatype Clock = Clock(serverNow: Instant, parse: string -> Option<Instant>, validZones: set<string>)

  datatype ApiError = ValidationError | NotFound

  /** The validation rules of the status change. */
  predicate ValidStatusRequest(req: StatusRequest)
    ensures ValidStatusRequest(req) ==> TruthyOpt(req.status) && |req.status.value| <= 8
  {
    && req.status.Some? && req.status.value in SetStatusVocabulary
    && (req.clientTz.Some? ==> |req.clientTz.value| <= 60)
  }

  /** The client time, when the raw value is truthy and parses. */
  function ParsedClientTime(raw: Option<string>, clock: Clock): (p: Option<Instant>)
    ensures !TruthyOpt(raw) ==> p.None?
    ensures TruthyOpt(raw) ==> p == clock.parse(raw.value)
    ensures p.Some? ==> TruthyOpt(raw) && clock.parse(raw.value) == p
  {
    if TruthyOpt(raw) then clock.parse(raw.value) else None
  }

  /**
   * The timestamp a status change uses: the parsed client time, moved to
   * the client timezone only when that is truthy and valid, and otherwise
   * the server's clock.
   */
  function EffectiveTime(req: StatusRequest, clock: Clock): (t: Instant)
    ensures var p := ParsedClientTime(Coalesce(req.clientTime, req.timeHeader), clock);
      && (p.None? ==> t == clock.serverNow)
      && (p.Some? ==> t.epoch == p.value.epoch)
      && (var tz := Coalesce(req.clientTz, req.tzHeader);
          && (p.Some? && TruthyOpt(tz) && tz.value in clock.validZones ==> t.zone == tz.value)
          && (p.Some? && !(TruthyOpt(tz) && tz.value in clock.validZones) ==> t == p.value))
  {
    var p := ParsedClientTime(Coalesce(req.clientTime, req.timeHeader), clock);
    var tz := Coalesce(req.clientTz, req.tzHeader);
    if p.None? then clock.serverNow
    else if TruthyOpt(tz) && tz.value in clock.validZones then p.value.(zone := tz.value)
    else p.value
  }

  /**
   * The timestamp computation of setStatus, step by step: server time,
   * replaced by the parsed client time when the raw value is truthy and
   * parses, converted to the client timezone when that is truthy and valid.
   */
  method ResolveNow(req: StatusRequest, clock: Clock) returns (now: Instant)
    ensures now == EffectiveTime(req, clock)
  {
    var clientTimeRaw := Coalesce(req.clientTime, req.timeHeader);
    var clientTz := Coalesce(req.clientTz, req.tzHeader);
    now := clock.serverNow;
    if TruthyOpt(clientTimeRaw) {
      var parsed := clock.parse(clientTimeRaw.value);
      if parsed.Some? {
        var p := parsed.value;
        if TruthyOpt(clientTz) && clientTz.value in clock.validZones {
          p := p.(zone := clientTz.value);
        }
        now := p;
      }
    }
  }

  /** `$row->detail()->pluck('tiket_id')`: the ticket column of the transaction's detail rows. */
  function DetailTicketIds(details: seq<Detail>, id: int): (r: seq<Option<int>>)
    ensures |r| <= |details|
    ensures forall x :: x in r <==>
      exists k :: 0 <= k < |details| && details[k].transaksiId == id && details[k].tiketId == x
  {
    if details == [] then []
    else
      var rest := DetailTicketIds(details[1..], id);
      assert forall k :: 1 <= k < |details| ==> details[k] == details[1..][k - 1];
      if details[0].transaksiId == id then [details[0].tiketId] + rest else rest
  }

  /** `->filter()`: keeps the truthy ids, dropping null and 0. */
  function FilterTruthy(ids: seq<Option<int>>): (r: seq<int>)
    ensures |r| <= |ids|
    ensures forall t :: t in r <==> t != 0 && Some(t) in ids
  {
    if ids == [] then []
    else
      var rest := FilterTruthy(ids[1..]);
      assert forall x :: x in ids <==> x == ids[0] || x in ids[1..];
      if ids[0].Some? && ids[0].value != 0 then [ids[0].value] + rest else rest
  }

  /** The tickets a cancellation releases. */
  function LinkedTickets(details: seq<Detail>, id: int): (r: seq<int>)
    ensures |r| <= |details|
    ensures forall t :: t in r ==> t != 0
  {
    FilterTruthy(DetailTicketIds(details, id))
  }

  /** A ticket is released exactly when a detail row of the transaction names it by a truthy id. */
  lemma LinkedTicketsIff(details: seq<Detail>, id: int, t: int)
    ensures t in LinkedTickets(details, id) <==>
      t != 0 && exists k :: 0 <= k < |details| && details[k].transaksiId == id && details[k].tiketId == Some(t)
  {
  }

  /** Create and update agree, for every accepted word, with what the status change writes. */
  lemma CallSitesAgree(s: string, current: Option<string>)
    requires s in SetStatusVocabulary
    ensures StoreStatus(Given(s)) == NormalizeStatus(Some(s)).value
    ensures UpdatedStatus(current, Given(s)) == NormalizeStatus(Some(s))
  {
    VocabularyNormalizes(s);
  }

  /** The store of transactions, tickets (id to status) and detail rows. */
  class TransactionStore {
    var transactions: map<int, Transaksi>
    var tickets: map<int, string>
    var details: seq<Detail>

    constructor (transactions0: map<int, Transaksi>, tickets0: map<int, string>, details0: seq<Detail>)
      ensures transactions == transactions0 && tickets == tickets0 && details == details0
    {
      transactions, tickets, details := transactions0, tickets0, details0;
    }

    /** `Tiket::whereIn('tiket_id', $ids)->update(['status' => 'tersedia'])`, skipped for no ids. */
    method ReleaseTickets(ids: seq<int>)
      modifies this
      ensures transactions == old(transactions) && details == old(details)
      ensures tickets.Keys == old(tickets).Keys
      ensures forall t :: t in tickets ==> tickets[t] == if t in ids then "tersedia" else old(tickets)[t]
    {
      if |ids| > 0 {
        tickets := map t | t in tickets :: if t in ids then "tersedia" else tickets[t];
      }
    }

    /** setStatus: validate, find the row, normalise, stamp or clear the times, release tickets. */
    method SetStatus(id: int, req: StatusRequest, clock: Clock) returns (res: Result<Transaksi, ApiError>)
      modifies this
      ensures details == old(details)
      ensures !ValidStatusRequest(req) ==> res == Failure(ValidationError)
      ensures ValidStatusRequest(req) && id !in old(transactions) ==> res == Failure(NotFound)
      ensures ValidStatusRequest(req) && id in old(transactions) ==> res.Success?
      ensures res.Failure? ==> transactions == old(transactions) && tickets == old(tickets)
      ensures res.Success? ==> id in old(transactions) && transactions == old(transactions)[id := res.value]
      ensures res.Success? ==>
        var st := res.value.status;
        && st.Some? && st.value in CanonicalStatuses
        && (st.value == "sukses" <==> req.status.value in PaidRequests)
        && (st.value == "batal" <==> req.status.value in CancelRequests)
        && res.value == old(transactions)[id].(status := st, paidAt := res.value.paidAt,
                                               tanggalTransaksi := res.value.tanggalTransaksi)
      ensures res.Success? && res.value.status == Some("sukses") ==>
        var now := EffectiveTime(req, clock);
        res.value.paidAt == Some(now) && res.value.tanggalTransaksi == Some(now)
      ensures res.Success? && res.value.status != Some("sukses") ==>
        res.value.paidAt == None && res.value.tanggalTransaksi == old(transactions)[id].tanggalTransaksi
      ensures res.Success? && res.value.status == Some("batal") ==>
        && tickets.Keys == old(tickets).Keys
        && forall t :: t in tickets ==>
             tickets[t] == if t in LinkedTickets(details, id) then "tersedia" else old(tickets)[t]
      ensures !(res.Success? && res.value.status == Some("batal")) ==> tickets == old(tickets)
    {
      if !ValidStatusRequest(req) {
        return Failure(ValidationError);
      }
      if id !in transactions {
        return Failure(NotFound);
      }
      var row := transactions[id];
      VocabularyNormalizes(req.status.value);
      var status := NormalizeStatus(req.status).GetOr(DefaultStatus);
      row := row.(status := Some(status));
      var now := ResolveNow(req, clock);
      if status == "sukses" {
        row := row.(paidAt := Some(now), tanggalTransaksi := Some(now));
      }
      if status == "pending" {
        row := row.(paidAt := None);
      }
      if status == "batal" {
        row := row.(paidAt := None);
      }
      transactions := transactions[id := row];
      if status == "batal" {
        ReleaseTickets(LinkedTickets(details, id));
      }
      res := Success(row);
    }
  }
}
