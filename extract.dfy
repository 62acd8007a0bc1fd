/**
 * The per-account report built inside the browser page: one check-in request
 * and one status request, whose outcomes are recorded in a fresh object
 * under the labels of INFO.
 *
 * The two requests are I/O and arrive here as their outcomes: either the
 * network failed (the request's `catch` substitutes `{ reason: '网络错误' }`)
 * or a response came back with a status code and the body it parses to.
 */
module Extract {
  import opened Wrappers
  import opened JsText
  import opened Masking

  /** The keys of the report, one per INFO property. */
  datatype Labels = Labels(
    account: string,
    leftDays: string,
    checkInMessage: string,
    checkInFailed: string,
    getStatusFailed: string,
    traffic: string)

  const INFO := Labels("账号", "天数", "签到情况", "签到失败", "获取信息失败", "已使用")

  const LABELS: set<string> :=
    {INFO.account, INFO.leftDays, INFO.checkInMessage, INFO.checkInFailed, INFO.getStatusFailed, INFO.traffic}

  const NETWORK_ERROR := "网络错误"
  const STATUS_CODE := "状态码："
  const UNKNOWN_ACCOUNT := "未知账号"

  /** No two INFO properties share a label. */
  predicate Distinct(l: Labels) {
    var keys := [l.account, l.leftDays, l.checkInMessage, l.checkInFailed, l.getStatusFailed, l.traffic];
    forall i, j :: 0 <= i < j < |keys| ==> keys[i] != keys[j]
  }

  lemma InfoDistinct()
    ensures Distinct(INFO)
  {
    var keys := [INFO.account, INFO.leftDays, INFO.checkInMessage, INFO.checkInFailed, INFO.getStatusFailed, INFO.traffic];
    assert INFO.checkInMessage[2] != INFO.checkInFailed[2];
    forall i, j | 0 <= i < j < |keys| ensures keys[i] != keys[j] {
      if !(i == 2 && j == 3) {
        assert keys[i][0] != keys[j][0];
      }
    }
  }

  /** What a request produced: a network failure, or a response with its status and parsed body. */
  datatype Outcome<B> = NetworkError | Response(status: nat, body: B)

  /** `res.ok`: a response whose status is in the range 200 to 299. */
  predicate Ok<B>(o: Outcome<B>) {
    o.Response? && 200 <= o.status <= 299
  }

  /** The body of the check-in response: its `message` property, if any. */
  datatype CheckInBody = CheckInBody(message: Option<string>)

  /** The `data` object of the status response; each property may be absent. */
  datatype StatusData = StatusData(
    email: Option<string>,
    phone: Option<string>,
    leftDays: Option<string>,
    traffic: Option<string>)

  /** The body of the status response: its `data` property, if any. */
  datatype StatusBody = StatusBody(data: Option<StatusData>)

  /**
   * A value stored in the report. `ParsedInt` and `Gigabytes` stand for
   * `parseInt(leftDays)` and the traffic figure formatted as gigabytes; the
   * numbers themselves are not computed here.
   */
  datatype Value = Text(s: string) | Undefined | ParsedInt(raw: Option<string>) | Gigabytes(raw: Option<string>)

  /** `res.reason || `状态码：${res.status}``: the text logged and stored for a failed request. */
  function FailureReason<B>(o: Outcome<B>): (reason: string)
    ensures o.NetworkError? ==> reason == NETWORK_ERROR
    ensures o.Response? ==>
              |reason| > |STATUS_CODE| && reason[..|STATUS_CODE|] == STATUS_CODE
              && (forall i :: |STATUS_CODE| <= i < |reason| ==> '0' <= reason[i] <= '9')
              && (|reason| > |STATUS_CODE| + 1 ==> reason[|STATUS_CODE|] != '0')
              && DecimalValue(reason[|STATUS_CODE|..]) == o.status
  {
    match o
    case NetworkError => NETWORK_ERROR
    case Response(status, _) =>
      DecimalRoundTrip(status);
      assert (STATUS_CODE + Decimal(status))[..|STATUS_CODE|] == STATUS_CODE;
      assert (STATUS_CODE + Decimal(status))[|STATUS_CODE|..] == Decimal(status);
      STATUS_CODE + Decimal(status)
  }

  /**
   * The clauses of FailureReason's contract for a response fix the text
   * exactly: any string meeting them is `状态码：` followed by the decimal
   * text of the status.
   */
  lemma FailureReasonIsDecimal(r: string, status: nat)
    requires |r| > |STATUS_CODE| && r[..|STATUS_CODE|] == STATUS_CODE
    requires forall i :: |STATUS_CODE| <= i < |r| ==> '0' <= r[i] <= '9'
    requires |r| > |STATUS_CODE| + 1 ==> r[|STATUS_CODE|] != '0'
    requires DecimalValue(r[|STATUS_CODE|..]) == status
    ensures r == STATUS_CODE + Decimal(status)
  {
    var digits := r[|STATUS_CODE|..];
    DecimalCanonical(digits);
    assert r == r[..|STATUS_CODE|] + digits;
  }

  /** Two failed requests with the same reason failed the same way, with the same status code. */
  lemma FailureReasonIdentifiesOutcome<B>(a: Outcome<B>, b: Outcome<B>)
    requires FailureReason(a) == FailureReason(b)
    ensures a.NetworkError? <==> b.NetworkError?
    ensures a.Response? && b.Response? ==> a.status == b.status
  {
  }

  /** A property is truthy: present and not the empty string. */
  predicate Truthy(p: Option<string>) {
    p.Some? && p.value != ""
  }

  /**
   * The account shown in the report: the masked email if there is one,
   * else the masked phone number, else `未知账号`.
   */
  function AccountLabel(data: StatusData): (account: string)
    ensures Truthy(data.email) ==>
              |account| == |data.email.value|
              && forall i :: 0 <= i < |account| ==> account[i] == data.email.value[i] || account[i] == '*'
    ensures !Truthy(data.email) && Truthy(data.phone) ==>
              |account| == |data.phone.value|
              && forall i :: 0 <= i < |account| ==> account[i] == data.phone.value[i] || account[i] == '*'
    ensures !Truthy(data.email) && !Truthy(data.phone) ==> account == UNKNOWN_ACCOUNT
  {
    if Truthy(data.email) then MaskEmail(data.email.value)
    else if Truthy(data.phone) then MaskPhone(data.phone.value)
    else UNKNOWN_ACCOUNT
  }

  /** The destructuring `const { data: { email, phone, leftDays, traffic } = {} }`. */
  function DataOrEmpty(body: StatusBody): StatusData {
    body.data.GetOr(StatusData(None, None, None, None))
  }

  /** The value of `message`: undefined when the body has none. */
  function MessageValue(message: Option<string>): (v: Value)
    ensures v.Undefined? <==> message.None?
    ensures message.Some? ==> v == Text(message.value)
  {
    match message
    case Some(m) => Text(m)
    case None => Undefined
  }

  /**
   * The report of one account. Exactly one of the two check-in labels and
   * either the failure label or the three status labels are set; the
   * report has two keys when the status request failed and four when it
   * succeeded.
   */
  method ExtractReport(checkIn: Outcome<CheckInBody>, status: Outcome<StatusBody>) returns (ret: map<string, Value>)
    ensures ret.Keys <= LABELS
    ensures INFO.checkInFailed in ret <==> !Ok(checkIn)
    ensures INFO.checkInMessage in ret <==> Ok(checkIn)
    ensures !Ok(checkIn) ==> ret[INFO.checkInFailed] == Text(FailureReason(checkIn))
    ensures Ok(checkIn) ==> ret[INFO.checkInMessage] == MessageValue(checkIn.body.message)
    ensures INFO.getStatusFailed in ret <==> !Ok(status)
    ensures INFO.account in ret <==> Ok(status)
    ensures INFO.leftDays in ret <==> Ok(status)
    ensures INFO.traffic in ret <==> Ok(status)
    ensures !Ok(status) ==> ret[INFO.getStatusFailed] == Text(FailureReason(status))
    ensures Ok(status) ==>
              ret[INFO.account] == Text(AccountLabel(DataOrEmpty(status.body)))
              && ret[INFO.leftDays] == ParsedInt(DataOrEmpty(status.body).leftDays)
              && ret[INFO.traffic] == Gigabytes(DataOrEmpty(status.body).traffic)
    ensures |ret.Keys| == if Ok(status) then 4 else 2
  {
    InfoDistinct();
    ret := map[];

    if !Ok(checkIn) {
      var reason := FailureReason(checkIn);
      ret := ret[INFO.checkInFailed := Text(reason)];
    } else {
      ret := ret[INFO.checkInMessage := MessageValue(checkIn.body.message)];
    }
    assert |ret.Keys| == 1;

    if !Ok(status) {
      var reason := FailureReason(status);
      ret := ret[INFO.getStatusFailed := Text(reason)];
    } else {
      var data := DataOrEmpty(status.body);
      var account := UNKNOWN_ACCOUNT;
      if Truthy(data.email) {
        account := MaskEmail(data.email.value);
      } else if Truthy(data.phone) {
        account := MaskPhone(data.phone.value);
      }
      ret := ret[INFO.account := Text(account)];
      ret := ret[INFO.leftDays := ParsedInt(data.leftDays)];
      ret := ret[INFO.traffic := Gigabytes(data.traffic)];
    }
  }

  /** With the `data` object missing, the account is unknown and both figures come from undefined. */
  lemma MissingDataIsUnknown(body: StatusBody)
    requires body.data.None?
    ensures AccountLabel(DataOrEmpty(body)) == UNKNOWN_ACCOUNT
    ensures DataOrEmpty(body).leftDays.None? && DataOrEmpty(body).traffic.None?
  {
  }

  /** An email wins over a phone number; an empty email falls through to the phone number. */
  lemma EmailWinsOverPhone(data: StatusData)
    ensures Truthy(data.email) ==> AccountLabel(data) == MaskEmail(data.email.value)
    ensures !Truthy(data.email) && Truthy(data.phone) ==> AccountLabel(data) == MaskPhone(data.phone.value)
  {
  }
}
