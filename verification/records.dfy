/** One row of the result list: how a lookup reply becomes a record
    (defaults, error text) and which badge class the row gets. */
module Records {
  import opened Wrappers
  import opened Text
  import opened Decimal

  /** The `detail` object of a lookup reply. A field is `None` when it is
      missing or null; an empty string is present but falsy. */
  datatype Detail = Detail(
    tanggal: Option<string>,
    keterangan: Option<string>,
    posisi: Option<string>,
    status: Option<string>)

  /** What one lookup through `/api/trace` comes to. */
  datatype Reply =
    /** `fetch` rejected or the body was not JSON; carries the thrown message. */
    | Rejected(message: string)
    /** The response had a status outside 200-299. */
    | HttpError(status: nat)
    /** A parsed body; `detail` is absent when the body or its `detail` is falsy. */
    | Json(detail: Option<Detail>)

  /** An entry of `resultsData`. */
  datatype Record = Record(
    no: nat,
    btt: string,
    tanggal: string,
    keterangan: string,
    posisi: string,
    status: string)

  const Dash := "-"
  const ErrorStatus := "ERROR"
  const ErrorPrefix := "Error: "

  /** `value || '-'` for a string field. */
  function OrDash(v: Option<string>): (r: string)
    ensures r != []
    ensures r == Dash <==> v.None? || v.value == [] || v.value == Dash
    ensures r != Dash ==> v == Some(r)
  {
    match v
    case Some(s) => if s == [] then Dash else s
    case None => Dash
  }

  /** The `message` of the error the failed lookup throws. */
  function FailureMessage(reply: Reply): string
    requires !reply.Json?
  {
    match reply
    case Rejected(m) => m
    case HttpError(code) => "HTTP error! status: " + ToDecimal(code)
  }

  /** The record stored for the line with data-line index `no - 1`. A
      failed lookup stores dashes, `ERROR` and the error text; a reply
      without detail stores four dashes; a detail's missing or empty
      fields become dashes. No field but the code itself is ever empty. */
  function MakeRecord(no: nat, btt: string, reply: Reply): (r: Record)
    ensures r.no == no && r.btt == btt
    ensures r.tanggal != [] && r.keterangan != [] && r.posisi != [] && r.status != []
    ensures !reply.Json? ==>
      && r.tanggal == Dash && r.posisi == Dash && r.status == ErrorStatus
      && r.keterangan == ErrorPrefix + FailureMessage(reply)
    ensures reply == Json(None) ==>
      r.tanggal == Dash && r.keterangan == Dash && r.posisi == Dash && r.status == Dash
    ensures reply.Json? && reply.detail.Some? ==>
      var d := reply.detail.value;
      && r.tanggal == OrDash(d.tanggal)
      && r.keterangan == OrDash(d.keterangan)
      && r.posisi == OrDash(d.posisi)
      && r.status == OrDash(d.status)
  {
    match reply
    case Json(Some(d)) =>
      Record(no, btt, OrDash(d.tanggal), OrDash(d.keterangan), OrDash(d.posisi), OrDash(d.status))
    case Json(None) => Record(no, btt, Dash, Dash, Dash, Dash)
    case _ => Record(no, btt, Dash, ErrorPrefix + FailureMessage(reply), Dash, ErrorStatus)
  }

  /** The badge class of a result row. */
  datatype Badge = StatusDelivered | StatusOnProcess | StatusError {
    function ClassName(): string {
      match this
      case StatusDelivered => "status-delivered"
      case StatusOnProcess => "status-onprocess"
      case StatusError => "status-error"
    }
  }

  /** The class starts as `status-error`; a detail whose status lowercases
      to `delivered` gets `status-delivered`, any other status but `'-'`
      gets `status-onprocess`; a failed lookup always shows `status-error`. */
  function BadgeFor(reply: Reply): Badge
  {
    match reply
    case Json(Some(d)) =>
      var status := OrDash(d.status);
      if Lower(status) == "delivered" then StatusDelivered
      else if status != Dash then StatusOnProcess
      else StatusError
    case _ => StatusError
  }

  /** The badge, read against the stored record: delivered exactly for a
      successful lookup whose status lowercases to `delivered`, error
      exactly for a failed lookup or a `'-'` status, on-process otherwise. */
  lemma BadgeMatchesRecord(no: nat, btt: string, reply: Reply)
    ensures var r := MakeRecord(no, btt, reply);
      && (BadgeFor(reply) == StatusDelivered <==> reply.Json? && Lower(r.status) == "delivered")
      && (BadgeFor(reply) == StatusError <==> !reply.Json? || r.status == Dash)
      && (BadgeFor(reply) == StatusOnProcess <==>
            reply.Json? && r.status != Dash && Lower(r.status) != "delivered")
  {
    var r := MakeRecord(no, btt, reply);
    assert Lower(Dash)[0] == '-';
  }

  /** The delivered test ignores case: a detail gets `status-delivered`
      exactly when its status spells `delivered` with each letter in
      either case, so `Delivered` and `DELIVERED` count as well. */
  lemma DeliveredAnyCase(d: Detail)
    ensures BadgeFor(Json(Some(d))) == StatusDelivered <==>
      d.status.Some? && AnyCaseOf(d.status.value, "delivered")
  {
    var u := "delivered";
    assert IsLowerWord(u) by {
      assert u[0] == 'd' && u[1] == 'e' && u[2] == 'l' && u[3] == 'i' && u[4] == 'v';
      assert u[5] == 'e' && u[6] == 'r' && u[7] == 'e' && u[8] == 'd';
    }
    LowerMatchesAnyCase(OrDash(d.status), u);
    if d.status.Some? && AnyCaseOf(d.status.value, u) {
      assert d.status.value != [];
    }
  }

  /** The example of an upper-case status: `DELIVERED` shows as delivered. */
  lemma UpperDelivered(a: Option<string>, b: Option<string>, c: Option<string>)
    ensures BadgeFor(Json(Some(Detail(a, b, c, Some("DELIVERED"))))) == StatusDelivered
  {
    var w := "DELIVERED";
    DeliveredAnyCase(Detail(a, b, c, Some(w)));
    assert AnyCaseOf(w, "delivered") by {
      assert w[0] == 'D' && w[1] == 'E' && w[2] == 'L' && w[3] == 'I' && w[4] == 'V';
      assert w[5] == 'E' && w[6] == 'R' && w[7] == 'E' && w[8] == 'D';
    }
  }
}
