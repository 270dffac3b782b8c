/**
  The status tool (`src/tools/wechat-status.js`): the query flow from
  validation to the reply, the name of each publishing state, and the lines of
  the status and failure reports.

  The environment, the clock and the platform's replies are the fields of a
  `Probe` value; the date formatting of `formatTimestamp` is a parameter.
 */
module StatusTool {
  import opened Wrappers
  import opened Text
  import Validator
  import Api = WeChatApi
  import Publisher

  // ---------------------------------------------------------------------------
  // getStatusText

  /** The names of the states 0 to 4 of `publish_status`. */
  const KnownStates: seq<string> := ["🟡 发布中", "🟢 发布成功", "🔴 发布失败", "🟠 审核中", "🔴 审核失败"]

  /** The start of the text for a state outside the table. */
  const UnknownState := "🤔 未知状态("

  /** An optional minus sign and at least one digit, as `ParseInt` reads. */
  predicate Numeral(s: string) {
    |s| >= 1 && (s[0] == '-' || IsDigit(s[0])) && forall i :: 1 <= i < |s| ==> IsDigit(s[i])
  }

  /**
    `getStatusText`: the table's name for a known state; any other code is
    written out in decimal between the parentheses of the "unknown" text.
   */
  function StatusText(status: int): (r: string)
    ensures 0 <= status < |KnownStates| ==> r == KnownStates[status]
    ensures !(0 <= status < |KnownStates|) ==>
      && StartsWith(r, UnknownState) && |r| > |UnknownState| + 1 && r[|r| - 1] == ')'
      && Numeral(r[|UnknownState|..|r| - 1])
      && ParseInt(r[|UnknownState|..|r| - 1]) == status
  {
    if 0 <= status < |KnownStates| then KnownStates[status]
    else
      var digits := IntToString(status);
      ParseIntToString(status);
      var r := UnknownState + digits + ")";
      assert r[|UnknownState|..|r| - 1] == digits;
      r
  }

  /** The first entry of the table equal to `t`, if any. */
  function KnownIndex(t: string, k: nat): (r: Option<nat>)
    requires k <= |KnownStates|
    ensures r.Some? ==> k <= r.value < |KnownStates| && KnownStates[r.value] == t
    ensures r.None? ==> forall i :: k <= i < |KnownStates| ==> KnownStates[i] != t
    decreases |KnownStates| - k
  {
    if k == |KnownStates| then None
    else if KnownStates[k] == t then Some(k)
    else KnownIndex(t, k + 1)
  }

  /** Reads a state's code back from its text: the inverse of `StatusText`. */
  function StateCode(t: string): Option<int> {
    match KnownIndex(t, 0)
    case Some(k) => Some(k)
    case None =>
      if StartsWith(t, UnknownState) && |t| > |UnknownState| + 1 && t[|t| - 1] == ')'
        && Numeral(t[|UnknownState|..|t| - 1])
      then Some(ParseInt(t[|UnknownState|..|t| - 1]))
      else None
  }

  /** The table's texts are pairwise different and none starts like the "unknown" text. */
  lemma KnownStatesDistinct()
    ensures forall i, j :: 0 <= i < j < |KnownStates| ==> KnownStates[i] != KnownStates[j]
    ensures forall i :: 0 <= i < |KnownStates| ==> KnownStates[i][0] != UnknownState[0]
  {
    var lead := seq(|KnownStates|, i requires 0 <= i < |KnownStates| => KnownStates[i][0]);
    var third := seq(|KnownStates|, i requires 0 <= i < |KnownStates| => KnownStates[i][2]);
    assert lead == ['🟡', '🟢', '🔴', '🟠', '🔴'];
    assert third == ['发', '发', '发', '审', '审'];
    forall i, j | 0 <= i < j < |KnownStates| ensures KnownStates[i] != KnownStates[j] {
      assert lead[i] != lead[j] || third[i] != third[j];
    }
  }

  /** Every state's text names that state, so different states never share a text. */
  lemma StateCodeRoundTrip(status: int)
    ensures StateCode(StatusText(status)) == Some(status)
  {
    KnownStatesDistinct();
    var t := StatusText(status);
    if !(0 <= status < |KnownStates|) {
      assert t[0] == UnknownState[0] by { assert t[..|UnknownState|] == UnknownState; }
      assert KnownIndex(t, 0).None?;
    }
  }

  // ---------------------------------------------------------------------------
  // buildStatusMessage

  /** The counters of the report: reads and likes always, comments and shares when positive. */
  datatype Counters = Counters(readCount: int, likeCount: int, commentCount: Option<int>, shareCount: Option<int>)

  /** What the report says about the article; an absent field is a line left out. */
  datatype ArticleReport = ArticleReport(
    title: Option<string>, author: Option<string>, time: Option<string>,
    counters: Option<Counters>, link: Option<string>)

  /** The first article's lines, or the note that the details are not ready yet. */
  datatype Details = Described(article: ArticleReport) | Pending

  /** The status report: the message id, the state when known, and the details. */
  datatype StatusReport = StatusReport(msgId: string, state: Option<string>, details: Details)

  /** The reply names at least one article. */
  predicate HasArticles(b: Api.Body) {
    b.articleDetail.Some? && b.articleDetail.value.item.Some? && |b.articleDetail.value.item.value| > 0
  }

  /** The article the report describes: the first of the list. */
  function FirstArticle(b: Api.Body): Api.Article
    requires HasArticles(b)
  {
    b.articleDetail.value.item.value[0]
  }

  /** A counter shown only when it is present and positive. */
  predicate Positive(n: Option<int>) {
    n.Some? && n.value > 0
  }

  /**
    The counters of `stat_info`: a missing read or like count shows as zero, and
    a comment or share count shows only when it is positive.
   */
  function Count(s: Api.Stats): (c: Counters)
    ensures s.readNum.Some? ==> c.readCount == s.readNum.value
    ensures s.readNum.None? ==> c.readCount == 0
    ensures s.likeNum.Some? ==> c.likeCount == s.likeNum.value
    ensures s.likeNum.None? ==> c.likeCount == 0
    ensures c.commentCount.Some? <==> Positive(s.commentNum)
    ensures c.shareCount.Some? <==> Positive(s.shareNum)
    ensures c.commentCount.Some? ==> c.commentCount == s.commentNum && c.commentCount.value > 0
    ensures c.shareCount.Some? ==> c.shareCount == s.shareNum && c.shareCount.value > 0
  {
    Counters(s.readNum.GetOr(0), s.likeNum.GetOr(0),
      if Positive(s.commentNum) then s.commentNum else None,
      if Positive(s.shareNum) then s.shareNum else None)
  }

  /**
    The lines about one article: each field appears exactly when it is truthy,
    unchanged except the publication time, which `format` writes.
   */
  function Describe(a: Api.Article, format: int -> string): (r: ArticleReport)
    ensures r.title.Some? <==> Validator.Given(a.title)
    ensures r.title.Some? ==> r.title == a.title
    ensures r.author.Some? <==> Validator.Given(a.author)
    ensures r.author.Some? ==> r.author == a.author
    ensures r.time.Some? <==> a.publishTime.Some? && a.publishTime.value != 0
    ensures r.time.Some? ==> r.time == Some(format(a.publishTime.value))
    ensures r.counters.Some? <==> a.statInfo.Some?
    ensures r.counters.Some? ==> r.counters == Some(Count(a.statInfo.value))
    ensures r.link.Some? <==> Validator.Given(a.url)
    ensures r.link.Some? ==> r.link == a.url
  {
    ArticleReport(
      if Validator.Given(a.title) then a.title else None,
      if Validator.Given(a.author) then a.author else None,
      if a.publishTime.Some? && a.publishTime.value != 0 then Some(format(a.publishTime.value)) else None,
      if a.statInfo.Some? then Some(Count(a.statInfo.value)) else None,
      if Validator.Given(a.url) then a.url else None)
  }

  /**
    `buildStatusMessage`: the message id (or `未知`), the state exactly when the
    reply carries `publish_status`, and the first article when the reply lists
    any; only the first article is described.
   */
  function BuildStatusReport(body: Api.Body, msgId: Option<string>, format: int -> string): (r: StatusReport)
    ensures Validator.Given(msgId) ==> r.msgId == msgId.value
    ensures !Validator.Given(msgId) ==> r.msgId == "未知"
    ensures r.state.Some? <==> body.publishStatus.Some?
    ensures r.state.Some? ==> r.state == Some(StatusText(body.publishStatus.value))
    ensures r.details.Pending? <==> !HasArticles(body)
    ensures r.details.Described? ==> r.details.article == Describe(FirstArticle(body), format)
  {
    StatusReport(
      Api.OrElse(msgId, "未知"),
      if body.publishStatus.Some? then Some(StatusText(body.publishStatus.value)) else None,
      if HasArticles(body) then Described(Describe(FirstArticle(body), format)) else Pending)
  }

  /** The line for an optional field: `emoji label: value`. */
  function LineIf(o: Option<string>, lead: string): seq<string> {
    if o.Some? then [lead + o.value + "\n"] else []
  }

  function CounterLines(c: Counters): seq<string> {
    ["👀 阅读量: " + IntToString(c.readCount) + "\n", "❤️ 点赞数: " + IntToString(c.likeCount) + "\n"]
      + (if c.commentCount.Some? then ["💬 评论数: " + IntToString(c.commentCount.value) + "\n"] else [])
      + (if c.shareCount.Some? then ["📤 分享数: " + IntToString(c.shareCount.value) + "\n"] else [])
  }

  function DetailLines(d: Details): seq<string> {
    match d
    case Pending => ["ℹ️ 文章详情暂未生成，可能需要等待几分钟后重试\n"]
    case Described(a) =>
      LineIf(a.title, "📱 标题: ") + LineIf(a.author, "👤 作者: ") + LineIf(a.time, "📅 发布时间: ")
        + (if a.counters.Some? then CounterLines(a.counters.value) else [])
        + LineIf(a.link, "🔗 文章链接: ")
  }

  /** The opening of every status report. */
  const StatusHeading := "📊 文章状态查询结果\n\n"

  /** The report's lines, in the order the message prints them. */
  function StatusLines(rep: StatusReport): seq<string> {
    [StatusHeading, "📨 消息ID: " + rep.msgId + "\n"]
      + LineIf(rep.state, "📈 状态: ")
      + DetailLines(rep.details)
  }

  /** The report's text. */
  function StatusMessage(rep: StatusReport): string {
    Join(StatusLines(rep), "")
  }

  /** Every status message opens with the heading and names the message id. */
  lemma StatusMessageOpening(rep: StatusReport)
    ensures StartsWith(StatusMessage(rep), StatusHeading + "📨 消息ID: " + rep.msgId + "\n")
  {
    var lines := StatusLines(rep);
    assert lines[..2] == [StatusHeading, "📨 消息ID: " + rep.msgId + "\n"];
    JoinOpening(lines);
  }

  /** Lines joined without a separator start with their first two lines. */
  lemma JoinOpening(lines: seq<string>)
    requires |lines| >= 2
    ensures StartsWith(Join(lines, ""), lines[0] + lines[1])
  {
    var tail := lines[1..];
    assert Join(lines, "") == lines[0] + "" + Join(tail, "");
    if |lines| == 2 {
      assert Join(tail, "") == lines[1];
      PrefixOfConcat(lines[0], lines[1], []);
    } else {
      assert tail[1..] == lines[2..];
      assert Join(tail, "") == lines[1] + "" + Join(lines[2..], "");
      PrefixOfConcat(lines[0], lines[1], Join(lines[2..], ""));
    }
  }

  /** `a + b` opens `a + "" + (b + "" + c)`, and `a + "" + b` is `a + b`. */
  lemma PrefixOfConcat(a: string, b: string, c: string)
    ensures StartsWith(a + "" + (b + "" + c), a + b)
    ensures a + "" + b == a + b
  {
    assert a + "" + (b + "" + c) == (a + b) + c;
  }

  // ---------------------------------------------------------------------------
  // buildErrorMessage

  /** One block of the failure report. */
  datatype Hint = Failed(message: string) | AuthHint | MsgIdHint | GeneralHint

  function HintRank(h: Hint): nat {
    match h
    case Failed(_) => 0
    case AuthHint => 1
    case MsgIdHint => 2
    case GeneralHint => 3
  }

  function RenderHint(h: Hint): string {
    match h
    case Failed(m) => "❌ 状态查询失败: " + m + "\n\n"
    case AuthHint => "🔑 认证问题:\n• 检查AppID和AppSecret是否正确\n• 确认公众号权限是否足够\n\n"
    case MsgIdHint => "🔍 消息ID问题:\n• 检查提供的msgId是否正确\n• 确认消息是否确实存在\n• 只能查询最近的发布记录\n\n"
    case GeneralHint =>
      "💡 解决建议:\n• 确认msgId来自发布成功的返回结果\n• 检查网络连接是否正常\n• 如果是新发布的文章，请稍等几分钟后重试\n• 确保查询的是本公众号发布的文章"
  }

  /**
    The blocks of the failure report: the message first and the general advice
    last; the authentication block appears exactly when the message names the
    access token, the message-id block exactly when it names `msgId` or says
    `not found`, and no block appears twice or out of order.
   */
  function ErrorHints(message: string): (r: seq<Hint>)
    ensures 2 <= |r| && r[0] == Failed(message) && r[|r| - 1] == GeneralHint
    ensures AuthHint in r <==> Contains(message, "access_token")
    ensures MsgIdHint in r <==> Contains(message, "msgId") || Contains(message, "not found")
    ensures forall i, j :: 0 <= i < j < |r| ==> HintRank(r[i]) < HintRank(r[j])
  {
    [Failed(message)]
      + Publisher.Include(Contains(message, "access_token"), AuthHint)
      + Publisher.Include(Contains(message, "msgId") || Contains(message, "not found"), MsgIdHint)
      + [GeneralHint]
  }

  /** The failure report's text: the blocks, concatenated. */
  function ErrorMessage(hints: seq<Hint>): string {
    Join(seq(|hints|, k requires 0 <= k < |hints| => RenderHint(hints[k])), "")
  }

  // ---------------------------------------------------------------------------
  // query

  /** Everything outside the tool that `query` consults. */
  datatype Probe = Probe(
    envAppId: Option<string>,      // WECHAT_APP_ID
    envAppSecret: Option<string>,  // WECHAT_APP_SECRET
    now: int,                      // the clock during the remote calls
    tokenReply: Api.Reply,         // what the token endpoint answers
    statusReply: Api.Reply)        // freepublish/get

  /** The tool's reply: the status report, or the failure report (`isError`). */
  datatype Answer = Reported(report: StatusReport) | Refused(hints: seq<Hint>)

  /** The reply's text. */
  function AnswerText(a: Answer): string {
    match a
    case Reported(rep) => StatusMessage(rep)
    case Refused(hints) => ErrorMessage(hints)
  }

  /** A run of `query`: the reply and the remote calls made. */
  datatype Query = Query(answer: Answer, calls: seq<Api.Call>)

  /** The request after the credentials fall back to the environment. */
  function Effective(params: Validator.Params, w: Probe): Validator.Params {
    Publisher.WithEnvironment(params, w.envAppId, w.envAppSecret)
  }

  /**
    `query`: validate, then ask the platform through a fresh client. A rejected
    request makes no remote call; the platform's answer becomes the status
    report, and every thrown error becomes the failure report for its message.
   */
  function RunQuery(params: Validator.Params, w: Probe, format: int -> string): (r: Query)
    ensures var v := Validator.ValidateStatusParams(Effective(params, w));
      !v.valid ==> r == Query(Refused(ErrorHints("参数验证失败: " + Join(Validator.Messages(v.errors), ", "))), [])
  {
    var p := Effective(params, w);
    var v := Validator.ValidateStatusParams(p);
    if !v.valid then
      Query(Refused(ErrorHints("参数验证失败: " + Join(Validator.Messages(v.errors), ", "))), [])
    else
      var o := Api.GetPublishStatus(Api.NewClient, w.now, w.tokenReply, w.statusReply);
      match o.result
      case Ok(b) => Query(Reported(BuildStatusReport(b, p.msgId, format)), o.calls)
      case Err(e) => Query(Refused(ErrorHints(e)), o.calls)
  }

  // ---------------------------------------------------------------------------
  // Properties of the flow

  /** The platform is asked exactly when the request is acceptable. */
  lemma QueryCallsIff(params: Validator.Params, w: Probe, format: int -> string)
    ensures RunQuery(params, w, format).calls == [] <==> !Validator.StatusAcceptable(Effective(params, w))
  {
    Validator.StatusValidIff(Effective(params, w));
    assert !Api.CacheValid(Api.NewClient, w.now);
  }

  /** A fresh client always fetches a token first, and queries at most once after it. */
  lemma QueryFetchesTokenFirst(params: Validator.Params, w: Probe, format: int -> string)
    ensures var r := RunQuery(params, w, format);
      r.calls == [] || r.calls == [Api.TokenFetch] || r.calls == [Api.TokenFetch, Api.PublishQuery]
  {
    if Validator.ValidateStatusParams(Effective(params, w)).valid {
      FreshClientQueryCalls(w);
      assert RunQuery(params, w, format).calls == Api.GetPublishStatus(Api.NewClient, w.now, w.tokenReply, w.statusReply).calls;
    }
  }

  /** The status call on a fresh client: a token fetch, then the query when a token came back. */
  lemma FreshClientQueryCalls(w: Probe)
    ensures var o := Api.GetPublishStatus(Api.NewClient, w.now, w.tokenReply, w.statusReply);
      o.calls == [Api.TokenFetch] || o.calls == [Api.TokenFetch, Api.PublishQuery]
  {
    assert !Api.CacheValid(Api.NewClient, w.now);
  }

  /**
    The status report comes back exactly when the request is acceptable, the
    token is issued and the platform answers the query with `errcode` 0.
   */
  lemma ReportedIff(params: Validator.Params, w: Probe, format: int -> string)
    ensures RunQuery(params, w, format).answer.Reported? <==>
      && Validator.StatusAcceptable(Effective(params, w))
      && Api.GetAccessToken(Api.NewClient, w.now, w.tokenReply).result.Ok?
      && w.statusReply.Answered? && w.statusReply.body.errcode == Some(0)
  {
    Validator.StatusValidIff(Effective(params, w));
  }

  /** A report names the message id that was asked about, and describes the platform's reply. */
  lemma ReportNamesQuery(params: Validator.Params, w: Probe, format: int -> string)
    ensures var r := RunQuery(params, w, format); var p := Effective(params, w);
      r.answer.Reported? ==>
        && p.msgId.Some? && Validator.IsValidMsgId(p.msgId.value)
        && r.answer.report.msgId == p.msgId.value
        && r.answer.report == BuildStatusReport(w.statusReply.body, p.msgId, format)
  {
    var p := Effective(params, w);
    Validator.StatusValidIff(p);
    Validator.DigitsAreNotBlank(p.msgId);
  }
}
