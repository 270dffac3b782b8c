/**
  The platform client (`src/services/WeChatAPI.js`): the access-token lease, the
  cover upload, draft creation and publishing, preview, the status query and the
  article digest.

  Every HTTP exchange is an input `Reply`; the client's decisions on those
  replies, the messages of the errors it throws and the order of the remote
  calls it makes are the model. The clock is the `now` argument.
 */
module WeChatApi {
  import opened Wrappers
  import opened Text
  import opened Rewrite
  import Validator

  // ---------------------------------------------------------------------------
  // Replies

  /** A JSON number or string, for the ids the platform may send as either. */
  datatype Scalar = Str(text: string) | Num(n: int)

  /** JavaScript truthiness of an optional scalar. */
  predicate Truthy(x: Option<Scalar>) {
    match x
    case None => false
    case Some(Str(t)) => t != []
    case Some(Num(n)) => n != 0
  }

  /** What a template literal prints for a scalar. */
  function ScalarText(x: Scalar): string {
    match x
    case Str(t) => t
    case Num(n) => IntToString(n)
  }

  /** What a template literal prints for an optional string: `undefined` when absent. */
  function Shown(o: Option<string>): string {
    match o
    case Some(t) => t
    case None => "undefined"
  }

  function ShownNumber(o: Option<int>): string {
    match o
    case Some(n) => IntToString(n)
    case None => "undefined"
  }

  /** `o || fallback` for an optional string. */
  function OrElse(o: Option<string>, fallback: string): (r: string)
    ensures Validator.Given(o) ==> r == o.value
    ensures !Validator.Given(o) ==> r == fallback
  {
    if Validator.Given(o) then o.value else fallback
  }

  /** Counters of one published article (`stat_info`). */
  datatype Stats = Stats(readNum: Option<int>, likeNum: Option<int>, commentNum: Option<int>, shareNum: Option<int>)

  /** One entry of `article_detail.item`. */
  datatype Article = Article(
    title: Option<string>, author: Option<string>, publishTime: Option<int>,
    statInfo: Option<Stats>, url: Option<string>)

  /** `article_detail`, whose `item` list may be missing. */
  datatype Detail = Detail(item: Option<seq<Article>>)

  /** The JSON body of a reply; every key may be missing. */
  datatype Body = Body(
    accessToken: Option<string>,
    expiresIn: Option<int>,
    errcode: Option<int>,
    errmsg: Option<string>,
    mediaId: Option<string>,
    publishId: Option<Scalar>,
    msgId: Option<Scalar>,
    publishStatus: Option<int>,
    articleDetail: Option<Detail>)

  /**
    How an HTTP exchange ended: a 2xx reply with its body; a non-2xx reply, which
    the HTTP library throws with the body attached; or a failure with no reply at all.
   */
  datatype Reply = Answered(body: Body) | Refused(body: Body, message: string) | NoResponse(message: string)

  /** The remote endpoints, for the trace of calls an operation makes. */
  datatype Call = TokenFetch | MaterialAdd | DraftAdd | MassPreview | FreePublish | UploadNews | PublishQuery

  // ---------------------------------------------------------------------------
  // Access token

  /** The client's cache; an `expireTime` of `None` is JavaScript's NaN. */
  datatype TokenCache = TokenCache(token: Option<string>, expireTime: Option<int>)

  /** A freshly constructed client: no token, expiry 0. */
  const NewClient := TokenCache(None, Some(0))

  /** The cached token may be used at time `now`. */
  predicate CacheValid(c: TokenCache, now: int) {
    Validator.Given(c.token) && c.expireTime.Some? && now < c.expireTime.value
  }

  /** Ten minutes before the platform's expiry, in milliseconds; NaN when `expires_in` is missing. */
  function ExpiryAfter(now: int, expiresIn: Option<int>): (r: Option<int>)
    ensures r.Some? <==> expiresIn.Some?
    ensures r.Some? ==> r.value - now == expiresIn.value * 1000 - 600000
  {
    match expiresIn
    case Some(e) => Some(now + (e - 600) * 1000)
    case None => None
  }

  /** What a client operation returns or throws, the cache it leaves and the remote calls it made. */
  datatype ApiOutcome<T> = ApiOutcome(result: Result<T, string>, cache: TokenCache, calls: seq<Call>)

  /** `getAccessToken` at time `now`; `reply` is what the token endpoint would answer. */
  function GetAccessToken(c: TokenCache, now: int, reply: Reply): (r: ApiOutcome<string>)
    ensures r.calls == [] <==> CacheValid(c, now)
    ensures r.calls == [] || r.calls == [TokenFetch]
    ensures CacheValid(c, now) ==> r.result == Ok(c.token.value) && r.cache == c
    ensures r.result.Err? ==> r.cache == c
    ensures r.result.Ok? ==> Validator.Given(Some(r.result.value)) && r.cache.token == Some(r.result.value)
    ensures !CacheValid(c, now) ==>
      (r.result.Ok? <==> reply.Answered? && Validator.Given(reply.body.accessToken))
    ensures !CacheValid(c, now) && r.result.Ok? ==>
      r.cache == TokenCache(reply.body.accessToken, ExpiryAfter(now, reply.body.expiresIn))
  {
    if CacheValid(c, now) then ApiOutcome(Ok(c.token.value), c, [])
    else
      var result := match reply
        case Answered(b) =>
          if Validator.Given(b.accessToken) then Ok(b.accessToken.value)
          else Err("Access Token网络请求失败: 获取Access Token失败: " + OrElse(b.errmsg, "未知错误"))
        case Refused(b, m) => Err("Access Token网络请求失败: " + OrElse(b.errmsg, m))
        case NoResponse(m) => Err("Access Token网络请求失败: " + m);
      var cache := if result.Ok? then TokenCache(reply.body.accessToken, ExpiryAfter(now, reply.body.expiresIn)) else c;
      ApiOutcome(result, cache, [TokenFetch])
  }

  /**
    A fetched token is served from the cache, without a remote call, until ten
    minutes before the lifetime the platform announced.
   */
  lemma TokenLeaseReused(c: TokenCache, now: int, b: Body, later: int, reply: Reply)
    requires !CacheValid(c, now) && Validator.Given(b.accessToken) && b.expiresIn.Some?
    requires now <= later < now + (b.expiresIn.value - 600) * 1000
    ensures var first := GetAccessToken(c, now, Answered(b));
      var second := GetAccessToken(first.cache, later, reply);
      second.calls == [] && second.result == Ok(b.accessToken.value) && second.cache == first.cache
  {
  }

  /** Once the lease has run out, the next call goes back to the platform. */
  lemma TokenLeaseExpires(c: TokenCache, now: int, b: Body, later: int, reply: Reply)
    requires !CacheValid(c, now) && Validator.Given(b.accessToken) && b.expiresIn.Some?
    requires later >= now + (b.expiresIn.value - 600) * 1000
    ensures GetAccessToken(GetAccessToken(c, now, Answered(b)).cache, later, reply).calls == [TokenFetch]
  {
  }

  /** A reply without `expires_in` leaves a NaN expiry, so the token is never reused. */
  lemma TokenWithoutLifetimeNeverReused(c: TokenCache, now: int, b: Body, later: int, reply: Reply)
    requires !CacheValid(c, now) && Validator.Given(b.accessToken) && b.expiresIn.None?
    ensures GetAccessToken(GetAccessToken(c, now, Answered(b)).cache, later, reply).calls == [TokenFetch]
  {
  }

  // ---------------------------------------------------------------------------
  // Cover upload

  /** What `fs.stat` reports for the cover path. */
  datatype FileStat = Missing | Found(isFile: bool, size: int) | StatFailed(message: string)

  const MaxCoverBytes := 1024 * 1024

  /** One past the last character that is not a trailing `/`. */
  function StripTrailingSlashes(p: string): (e: nat)
    ensures e <= |p|
    ensures forall k :: e <= k < |p| ==> p[k] == '/'
    ensures e == 0 || p[e - 1] != '/'
    decreases |p|
  {
    if p != [] && p[|p| - 1] == '/' then StripTrailingSlashes(p[..|p| - 1]) else |p|
  }

  /** Index just after the last `/` before `e`, or 0. */
  function SegmentStart(p: string, e: nat): (b: nat)
    requires e <= |p|
    ensures b <= e
    ensures forall k :: b <= k < e ==> p[k] != '/'
    ensures b == 0 || p[b - 1] == '/'
    decreases e
  {
    if e == 0 || p[e - 1] == '/' then e else SegmentStart(p, e - 1)
  }

  /** POSIX `path.basename`: the last segment, trailing slashes ignored. */
  function Basename(p: string): (r: string)
    ensures forall c :: c in r ==> c != '/'
  {
    var e := StripTrailingSlashes(p);
    p[SegmentStart(p, e)..e]
  }

  /** The media type the upload declares. */
  function ContentType(path: string): string {
    if EndsWith(Basename(path), ".png") then "image/png" else "image/jpeg"
  }

  /** For a path not ending in `/` the basename test is the path's own suffix test. */
  lemma BasenamePngSuffix(path: string)
    requires path == [] || path[|path| - 1] != '/'
    ensures EndsWith(Basename(path), ".png") <==> EndsWith(path, ".png")
  {
    var e := StripTrailingSlashes(path);
    assert e == |path|;
    var b := SegmentStart(path, e);
    var base := path[b..e];
    assert base == path[b..];
    if EndsWith(path, ".png") {
      assert forall k :: |path| - 4 <= k < |path| ==> path[k] == ".png"[k - (|path| - 4)] != '/';
      assert b <= |path| - 4;
      assert base[|base| - 4..] == path[|path| - 4..];
    }
    if EndsWith(base, ".png") {
      assert base[|base| - 4..] == path[|path| - 4..];
    }
  }

  /** The part of `uploadCoverImage` inside its `try`, once the token is known. */
  function UploadWithToken(path: string, stat: FileStat, reply: Reply): (r: Result<string, string>)
  {
    match stat
    case Missing => Err("图片文件不存在: " + path)
    case StatFailed(m) => Err("封面图上传请求失败: " + m)
    case Found(isFile, size) =>
      if !isFile then Err("封面图上传请求失败: 指定路径不是有效文件")
      else if size > MaxCoverBytes then Err("封面图上传请求失败: 图片文件过大，请使用小于1MB的图片")
      else
        match reply
        case Answered(b) =>
          if Validator.Given(b.mediaId) then Ok(b.mediaId.value)
          else Err("封面图上传请求失败: 封面图上传失败: " + OrElse(b.errmsg, "未知错误") + " (代码: " + ShownNumber(b.errcode) + ")")
        case Refused(b, m) => Err("封面图上传失败: " + OrElse(b.errmsg, m))
        case NoResponse(m) => Err("封面图上传请求失败: " + m)
  }

  /** The file passed the local checks, so the upload request is sent. */
  predicate UploadSent(stat: FileStat) {
    stat.Found? && stat.isFile && stat.size <= MaxCoverBytes
  }

  /**
    `uploadCoverImage`: the path check comes before the token, the file checks
    before the upload request, and only a `media_id` in a 2xx reply is success.
   */
  function UploadCoverImage(c: TokenCache, now: int, path: string, tokenReply: Reply, stat: FileStat, reply: Reply): (r: ApiOutcome<string>)
    ensures !Validator.ValidateFilePath(path).valid ==> r.result.Err? && r.calls == [] && r.cache == c
    ensures !Validator.ValidateFilePath(path).valid ==>
      r.result.error == "封面图路径不安全: " + Join(Validator.PathMessages(Validator.ValidateFilePath(path).errors), ", ")
    ensures MaterialAdd in r.calls <==>
      Validator.ValidateFilePath(path).valid && GetAccessToken(c, now, tokenReply).result.Ok? && UploadSent(stat)
    ensures r.result.Ok? ==> MaterialAdd in r.calls && reply.Answered? && reply.body.mediaId == Some(r.result.value)
    ensures r.result.Ok? ==> r.result.value != []
    ensures forall k :: 0 <= k < |r.calls| ==> r.calls[k] == TokenFetch || r.calls[k] == MaterialAdd
  {
    var check := Validator.ValidateFilePath(path);
    if !check.valid then
      ApiOutcome(Err("封面图路径不安全: " + Join(Validator.PathMessages(check.errors), ", ")), c, [])
    else
      var tok := GetAccessToken(c, now, tokenReply);
      if tok.result.Err? then ApiOutcome(Err(tok.result.error), tok.cache, tok.calls)
      else
        var sent := if UploadSent(stat) then [MaterialAdd] else [];
        ApiOutcome(UploadWithToken(path, stat, reply), tok.cache, tok.calls + sent)
  }

  /**
    Any path the upload accepts has an image extension, so it does not end in
    `/`, and the declared type is PNG exactly when the path ends in `.png`.
   */
  lemma UploadContentType(path: string)
    requires Validator.ValidateFilePath(path).valid
    ensures ContentType(path) == "image/png" <==> EndsWith(path, ".png")
  {
    var low := AsciiLower(path);
    var i :| 0 <= i < |Validator.SupportedExtensions| && EndsWith(low, Validator.SupportedExtensions[i]);
    assert low[|low| - 1] != '/';
    BasenamePngSuffix(path);
  }

  /** The extension test ignores case but the type test does not: `.PNG` is sent as JPEG. */
  lemma UpperCasePngSentAsJpeg(stem: string)
    ensures Validator.HasImageExtension(stem + ".PNG")
    ensures ContentType(stem + ".PNG") == "image/jpeg"
  {
    Validator.UpperCaseExtension(stem);
    var p := stem + ".PNG";
    BasenamePngSuffix(p);
    assert p[|p| - 3] == 'P';
  }

  // ---------------------------------------------------------------------------
  // Draft, publish and preview

  /** The article `publishArticle` receives. */
  datatype Draft = Draft(
    title: string, content: string, author: Option<string>, thumbMediaId: Option<string>,
    previewMode: bool, previewOpenId: Option<string>)

  /** The fields the tool reads back from a successful publish or preview. */
  datatype Published = Published(mediaId: Option<string>, publishId: Option<Scalar>, msgId: Option<Scalar>, message: Option<string>)

  const SubmittedMessage := "🚀 文章发布任务已提交成功！您的文章正在队列中处理。"

  const PreviewSentMessage := "预览消息已发送成功，请在微信手机端查看"

  const DraftKeptUnsubmittedMessage := "✅ 草稿已成功存入后台！\n" + "但无法通过 API 自动发布 (可能因账号权限或频率限制)。\n请进入公众号后台手动点击发布。"

  function DraftKeptMessage(errmsg: Option<string>): string {
    "✅ 草稿已成功存入后台！\n但自动发布失败 (" + OrElse(errmsg, "权限不足") + ")。\n请登录微信公众号后台手动点击【素材库/草稿箱】进行发布。"
  }

  /** A truthy, non-zero `errcode`. */
  predicate ErrorCode(b: Body) {
    b.errcode.Some? && b.errcode.value != 0
  }

  /**
    The error a step of `publishArticle` throws for a reply it does not accept;
    errors without a response are rethrown unchanged.
   */
  function StepError(reply: Reply, prefix: string): string {
    match reply
    case Answered(b) => prefix + Shown(b.errmsg)
    case Refused(b, m) => "微信接口调用失败: " + OrElse(b.errmsg, m)
    case NoResponse(m) => m
  }

  /** A draft or preview reply `publishArticle` accepts. */
  predicate Accepted(reply: Reply) {
    reply.Answered? && !ErrorCode(reply.body)
  }

  /** The inner `try` around the submit call: every outcome is a success for a draft that exists. */
  function SubmitResult(mediaId: Option<string>, reply: Reply): (r: Published)
    ensures r.mediaId == mediaId && r.msgId.None? && r.message.Some?
    ensures reply.Answered? && reply.body.errcode == Some(0) ==>
      r.publishId == reply.body.publishId && r.message == Some(SubmittedMessage)
    ensures !(reply.Answered? && reply.body.errcode == Some(0)) ==> r.publishId.None?
    ensures reply.Answered? && reply.body.errcode != Some(0) ==> r.message == Some(DraftKeptMessage(reply.body.errmsg))
    ensures !reply.Answered? ==> r.message == Some(DraftKeptUnsubmittedMessage)
  {
    match reply
    case Answered(b) =>
      if b.errcode == Some(0) then Published(mediaId, b.publishId, None, Some(SubmittedMessage))
      else Published(mediaId, None, None, Some(DraftKeptMessage(b.errmsg)))
    case _ => Published(mediaId, None, None, Some(DraftKeptUnsubmittedMessage))
  }

  /** The steps of `publishArticle` after the token. */
  function PublishWithToken(d: Draft, draftReply: Reply, previewReply: Reply, submitReply: Reply): (r: (Result<Published, string>, seq<Call>))
  {
    if !Validator.Given(d.thumbMediaId) then (Err("发布文章必须提供封面图media_id"), [])
    else if !Accepted(draftReply) then (Err(StepError(draftReply, "创建草稿失败: ")), [DraftAdd])
    else
      var mediaId := draftReply.body.mediaId;
      if d.previewMode && Validator.Given(d.previewOpenId) then
        if Accepted(previewReply) then (Ok(Published(mediaId, None, None, Some(PreviewSentMessage))), [DraftAdd, MassPreview])
        else (Err(StepError(previewReply, "发送预览失败: ")), [DraftAdd, MassPreview])
      else (Ok(SubmitResult(mediaId, submitReply)), [DraftAdd, FreePublish])
  }

  /**
    `publishArticle`: a missing cover id or a refused draft stops before the
    submit call; once the draft exists the outcome is a success, with a
    `publishId` only when the submit reply has `errcode` 0.
   */
  function PublishArticle(c: TokenCache, now: int, tokenReply: Reply, d: Draft, draftReply: Reply, previewReply: Reply, submitReply: Reply): (r: ApiOutcome<Published>)
    ensures var tok := GetAccessToken(c, now, tokenReply);
      && r.cache == tok.cache
      && (tok.result.Err? ==> r.result == Err(tok.result.error) && r.calls == tok.calls)
      && (tok.result.Ok? && !Validator.Given(d.thumbMediaId) ==>
            r.result == Err("发布文章必须提供封面图media_id") && r.calls == tok.calls)
      && (tok.result.Ok? && Validator.Given(d.thumbMediaId) && !Accepted(draftReply) ==>
            r.result.Err? && r.calls == tok.calls + [DraftAdd])
      && (tok.result.Ok? && Validator.Given(d.thumbMediaId) && Accepted(draftReply) &&
          !(d.previewMode && Validator.Given(d.previewOpenId)) ==>
            r.result == Ok(SubmitResult(draftReply.body.mediaId, submitReply)) &&
            r.calls == tok.calls + [DraftAdd, FreePublish])
      && (tok.result.Ok? && Validator.Given(d.thumbMediaId) && Accepted(draftReply) &&
          d.previewMode && Validator.Given(d.previewOpenId) ==>
            r.calls == tok.calls + [DraftAdd, MassPreview] &&
            (r.result.Ok? <==> Accepted(previewReply)) &&
            (Accepted(previewReply) ==> r.result == Ok(Published(draftReply.body.mediaId, None, None, Some(PreviewSentMessage)))))
    ensures FreePublish in r.calls ==> !(d.previewMode && Validator.Given(d.previewOpenId)) && MassPreview !in r.calls
    ensures MassPreview in r.calls ==> d.previewMode && Validator.Given(d.previewOpenId) && FreePublish !in r.calls
    ensures FreePublish in r.calls <==> r.result.Ok? && !(d.previewMode && Validator.Given(d.previewOpenId))
    ensures r.result.Ok? ==> Validator.Given(d.thumbMediaId) && Accepted(draftReply)
    ensures r.result.Ok? ==> r.result.value.mediaId == draftReply.body.mediaId
    ensures UploadNews !in r.calls && MaterialAdd !in r.calls && PublishQuery !in r.calls
  {
    var tok := GetAccessToken(c, now, tokenReply);
    if tok.result.Err? then ApiOutcome(Err(tok.result.error), tok.cache, tok.calls)
    else
      var (result, calls) := PublishWithToken(d, draftReply, previewReply, submitReply);
      ApiOutcome(result, tok.cache, tok.calls + calls)
  }

  /**
    Once the draft is saved, publishing succeeds whatever the submit call
    answers: the `publishId` comes back only from a submit reply with `errcode`
    0 that carries one, and the "submitted" message only from an `errcode` 0.
   */
  lemma SubmitOutcomeIsSoft(c: TokenCache, now: int, tokenReply: Reply, d: Draft, draftReply: Reply, previewReply: Reply, submitReply: Reply)
    requires GetAccessToken(c, now, tokenReply).result.Ok?
    requires Validator.Given(d.thumbMediaId) && Accepted(draftReply)
    requires !(d.previewMode && Validator.Given(d.previewOpenId))
    ensures var r := PublishArticle(c, now, tokenReply, d, draftReply, previewReply, submitReply);
      && r.result.Ok?
      && (r.result.value.publishId.Some? <==>
            submitReply.Answered? && submitReply.body.errcode == Some(0) && submitReply.body.publishId.Some?)
      && (r.result.value.message == Some(SubmittedMessage) <==>
            submitReply.Answered? && submitReply.body.errcode == Some(0))
  {
    if submitReply.Answered? {
      DraftKeptNotSubmitted(submitReply.body.errmsg);
    } else {
      DraftKeptNotSubmitted(None);
    }
  }

  /** The two "draft kept" messages differ from the "submitted" one. */
  lemma DraftKeptNotSubmitted(errmsg: Option<string>)
    ensures DraftKeptMessage(errmsg) != SubmittedMessage
    ensures DraftKeptUnsubmittedMessage != SubmittedMessage
  {
    assert DraftKeptMessage(errmsg)[0] == '✅' != '🚀' == SubmittedMessage[0];
    assert DraftKeptUnsubmittedMessage[0] == '✅';
  }

  /** The steps of `previewArticle` after the token; every failure is wrapped once. */
  function PreviewWithToken(uploadReply: Reply, previewReply: Reply): (r: (Result<Published, string>, seq<Call>))
  {
    var uploaded := match uploadReply
      case Answered(b) =>
        if Validator.Given(b.mediaId) then Ok(b.mediaId.value) else Err("素材上传失败: " + Shown(b.errmsg))
      case Refused(b, _) => Err(Shown(b.errmsg))
      case NoResponse(m) => Err(m);
    if uploaded.Err? then (Err("预览请求失败: " + uploaded.error), [UploadNews])
    else
      match previewReply
      case Answered(b) =>
        if b.errcode == Some(0) then (Ok(Published(Some(uploaded.value), None, b.msgId, None)), [UploadNews, MassPreview])
        else (Err("预览请求失败: 预览失败: " + Shown(b.errmsg)), [UploadNews, MassPreview])
      case Refused(b, _) => (Err("预览请求失败: " + Shown(b.errmsg)), [UploadNews, MassPreview])
      case NoResponse(m) => (Err("预览请求失败: " + m), [UploadNews, MassPreview])
  }

  /**
    `previewArticle`: upload the news item, then send the preview; only an
    `errcode` of 0 is success, and it never publishes.
   */
  function PreviewArticle(c: TokenCache, now: int, tokenReply: Reply, uploadReply: Reply, previewReply: Reply): (r: ApiOutcome<Published>)
    ensures var tok := GetAccessToken(c, now, tokenReply);
      && r.cache == tok.cache
      && (tok.result.Err? ==> r.result == Err(tok.result.error) && r.calls == tok.calls)
    ensures FreePublish !in r.calls && DraftAdd !in r.calls && MaterialAdd !in r.calls
    ensures r.result.Ok? <==>
      && GetAccessToken(c, now, tokenReply).result.Ok?
      && uploadReply.Answered? && Validator.Given(uploadReply.body.mediaId)
      && previewReply.Answered? && previewReply.body.errcode == Some(0)
    ensures r.result.Ok? ==> r.result.value == Published(uploadReply.body.mediaId, None, previewReply.body.msgId, None)
    ensures r.result.Err? && GetAccessToken(c, now, tokenReply).result.Ok? ==> StartsWith(r.result.error, "预览请求失败: ")
  {
    var tok := GetAccessToken(c, now, tokenReply);
    if tok.result.Err? then ApiOutcome(Err(tok.result.error), tok.cache, tok.calls)
    else
      var (result, calls) := PreviewWithToken(uploadReply, previewReply);
      ApiOutcome(result, tok.cache, tok.calls + calls)
  }

  /** `getPublishStatus`: the whole body when `errcode` is 0, otherwise a wrapped error. */
  function GetPublishStatus(c: TokenCache, now: int, tokenReply: Reply, reply: Reply): (r: ApiOutcome<Body>)
    ensures var tok := GetAccessToken(c, now, tokenReply);
      && r.cache == tok.cache
      && (tok.result.Err? ==> r.result == Err(tok.result.error) && r.calls == tok.calls)
      && (tok.result.Ok? ==> r.calls == tok.calls + [PublishQuery])
    ensures r.result.Ok? <==> GetAccessToken(c, now, tokenReply).result.Ok? && reply.Answered? && reply.body.errcode == Some(0)
    ensures r.result.Ok? ==> r.result.value == reply.body
    ensures r.result.Err? && GetAccessToken(c, now, tokenReply).result.Ok? ==> StartsWith(r.result.error, "查询状态失败: ")
  {
    var tok := GetAccessToken(c, now, tokenReply);
    if tok.result.Err? then ApiOutcome(Err(tok.result.error), tok.cache, tok.calls)
    else
      var result := match reply
        case Answered(b) => if b.errcode == Some(0) then Ok(b) else Err("查询状态失败: 查询失败: " + Shown(b.errmsg))
        case Refused(b, _) => Err("查询状态失败: " + Shown(b.errmsg))
        case NoResponse(m) => Err("查询状态失败: " + m);
      ApiOutcome(result, tok.cache, tok.calls + [PublishQuery])
  }

  // ---------------------------------------------------------------------------
  // extractDigest

  /** `t`, written in lower case, occurs at `k` under the `i` flag. */
  predicate OccursAtIgnoringCase(s: string, t: string, k: nat) {
    k + |t| <= |s| && AsciiLower(s[k..k + |t|]) == t
  }

  /** The first index from `j` where `t` occurs ignoring case. */
  function FindIgnoringCase(s: string, t: string, j: nat): (r: Option<nat>)
    requires j <= |s|
    ensures r.Some? ==> j <= r.value && OccursAtIgnoringCase(s, t, r.value)
    ensures r.Some? ==> forall k :: j <= k < r.value ==> !OccursAtIgnoringCase(s, t, k)
    ensures r.None? ==> forall k :: j <= k <= |s| ==> !OccursAtIgnoringCase(s, t, k)
    decreases |s| - j
  {
    if OccursAtIgnoringCase(s, t, j) then Some(j)
    else if j == |s| then None
    else FindIgnoringCase(s, t, j + 1)
  }

  /** `/<style[^>]*>[\s\S]*?<\/style>/gi` at `i`: a whole style element, deleted. */
  function StyleBlockAt(s: string, i: nat): (h: Option<Hit>)
    ensures h.Some? ==> i + 15 <= h.value.end <= |s| && h.value.out == []
    ensures h.Some? ==> OccursAtIgnoringCase(s, "<style", i) && OccursAtIgnoringCase(s, "</style>", h.value.end - 8)
  {
    if !OccursAtIgnoringCase(s, "<style", i) then None
    else
      match FindChar(s, '>', i + 6)
      case None => None
      case Some(g) =>
        match FindIgnoringCase(s, "</style>", g + 1)
        case None => None
        case Some(k) => Some(Hit(k + 8, []))
  }

  /** `/<[^>]*>/g` at `i`: a tag up to the first `>`, deleted. */
  function TagAt(s: string, i: nat): (h: Option<Hit>)
    ensures h.Some? <==> i < |s| && s[i] == '<' && FindChar(s, '>', i + 1).Some?
    ensures h.Some? ==> h == Some(Hit(FindChar(s, '>', i + 1).value + 1, []))
  {
    if i < |s| && s[i] == '<' then
      match FindChar(s, '>', i + 1)
      case Some(g) => Some(Hit(g + 1, []))
      case None => None
    else None
  }

  /** `[#*\`]` */
  const MarkdownMarks: set<char> := {'#', '*', '`'}

  /** The digest before the length cut: markup stripped, whitespace collapsed, trimmed. */
  function DigestText(content: string): (t: string)
    ensures NoCompleteTag(t)
    ensures forall c :: c in t ==> c !in MarkdownMarks
    ensures forall c :: c in t && c != ' ' ==> c in content
    ensures NoDoubleSpace(t)
    ensures t == [] || (!IsSpace(t[0]) && !IsSpace(t[|t| - 1]))
  {
    var styled := ReplaceAll(content, StyleBlockAt);
    var tagged := ReplaceAll(styled, TagAt);
    DeletingKeepsChars(content, 0, StyleBlockAt);
    DeletingKeepsChars(styled, 0, TagAt);
    TagPassLeavesNoTag(styled, 0);
    CleanupNoTag(tagged);
    var plain := RemoveChars(tagged, MarkdownMarks);
    var collapsed := CollapseSpaces(plain);
    TrimKeeps(collapsed);
    Trim(collapsed)
  }

  /**
    An article whose HTML is one leading tag followed by plain text — no `<`, no
    Markdown marks, whitespace already single spaces — digests to that text, trimmed.
   */
  lemma DigestOfTaggedText(attrs: string, x: string)
    requires '<' !in attrs && '>' !in attrs && '<' !in x
    requires forall c :: c in x ==> c !in MarkdownMarks
    requires NoDoubleSpace(x)
    requires forall i :: 0 <= i < |x| && IsSpace(x[i]) ==> x[i] == ' '
    ensures DigestText("<" + attrs + ">" + x) == Trim(x)
    ensures |Trim(x)| <= 60 ==> ExtractDigest("<" + attrs + ">" + x) == Trim(x)
  {
    var s := "<" + attrs + ">" + x;
    var e := |attrs| + 2;
    TaggedParts(attrs, x);
    forall j | 0 <= j < |s|
      ensures !Advances(StyleBlockAt(s, j), j, |s|)
    {
      if j == 0 {
        NoStyleCloseAfterStart(s);
      }
    }
    NoMatchCopies(s, 0, StyleBlockAt);
    assert ReplaceAll(s, StyleBlockAt) == s;
    assert TagAt(s, 0) == Some(Hit(e, []));
    NoMatchCopies(s, e, TagAt);
    assert ReplaceAll(s, TagAt) == x;
    RemoveCharsAbsent(x, MarkdownMarks);
    CollapseSpacesIdentity(x);
  }

  /** The pieces of `"<" + attrs + ">" + x` by index. */
  lemma TaggedParts(attrs: string, x: string)
    requires '<' !in attrs && '>' !in attrs && '<' !in x
    ensures var s := "<" + attrs + ">" + x;
      && |s| == |attrs| + 2 + |x| && s[0] == '<' && s[|attrs| + 1] == '>'
      && (forall k :: 1 <= k <= |attrs| ==> s[k] == attrs[k - 1])
      && (forall k :: 1 <= k < |s| ==> s[k] != '<')
      && s[|attrs| + 2..] == x
  {
    var s := "<" + attrs + ">" + x;
    forall k | 1 <= k < |s| ensures s[k] != '<' {
      if k <= |attrs| {
        assert s[k] == attrs[k - 1];
      } else if k > |attrs| + 1 {
        assert s[k] == x[k - |attrs| - 2];
      }
    }
  }

  /** With `<` only at the start, no `</style>` follows it, so no style block starts there. */
  lemma NoStyleCloseAfterStart(s: string)
    requires forall k :: 1 <= k < |s| ==> s[k] != '<'
    ensures StyleBlockAt(s, 0).None?
  {
  }

  /**
    Plain text — no `<`, no Markdown marks, whitespace already single spaces —
    is only trimmed, and a short one is its own digest.
   */
  lemma DigestOfPlainText(content: string)
    requires '<' !in content
    requires forall c :: c in content ==> c !in MarkdownMarks
    requires NoDoubleSpace(content)
    requires forall i :: 0 <= i < |content| && IsSpace(content[i]) ==> content[i] == ' '
    ensures DigestText(content) == Trim(content)
    ensures |Trim(content)| <= 60 ==> ExtractDigest(content) == Trim(content)
  {
    NoMatchCopies(content, 0, StyleBlockAt);
    NoMatchCopies(content, 0, TagAt);
    RemoveCharsAbsent(content, MarkdownMarks);
    CollapseSpacesIdentity(content);
  }

  /** `trim` adds no character and keeps the absence of doubled whitespace. */
  lemma TrimKeeps(s: string)
    ensures forall c :: c in Trim(s) ==> c in s
    ensures NoDoubleSpace(s) ==> NoDoubleSpace(Trim(s))
  {
    TrimChars(s);
    TrimSlice(s);
    var a, b :| 0 <= a <= b <= |s| && Trim(s) == s[a..b] && AllSpace(s[..a]) && AllSpace(s[b..]);
    if NoDoubleSpace(s) {
      forall k | 0 <= k < |s[a..b]| - 1
        ensures !(IsSpace(s[a..b][k]) && IsSpace(s[a..b][k + 1]))
      {
        assert s[a..b][k] == s[a + k] && s[a..b][k + 1] == s[a + k + 1];
      }
    }
  }

  /** `extractDigest`: the stripped text, cut to 60 characters plus "..." when longer. */
  function ExtractDigest(content: string): (r: string)
    ensures |r| <= 63
    ensures NoCompleteTag(r)
    ensures forall c :: c in r ==> c !in MarkdownMarks
    ensures NoDoubleSpace(r)
    ensures |DigestText(content)| <= 60 ==> r == DigestText(content)
    ensures |DigestText(content)| > 60 ==>
      |r| == 63 && r[..60] == DigestText(content)[..60] && EndsWith(r, "...")
  {
    var t := DigestText(content);
    if |t| > 60 then
      CutKeeps(t);
      CutNoTag(t);
      t[..60] + "..."
    else t
  }

  /** Cutting to 60 characters and appending "..." opens no tag. */
  lemma CutNoTag(t: string)
    requires |t| > 60 && NoCompleteTag(t)
    ensures NoCompleteTag(t[..60] + "...")
  {
    SliceNoTag(t, 0, 60);
    var r := t[..60] + "...";
    forall a, b | 0 <= a < b < |r| && r[a] == '<' ensures r[b] != '>' {
      if b < 60 {
        assert r[a] == t[..60][a] && r[b] == t[..60][b];
      } else {
        assert r[b] == '.';
      }
    }
  }

  /** Cutting to 60 characters and appending "..." adds no mark and no doubled whitespace. */
  lemma CutKeeps(t: string)
    requires |t| > 60 && NoDoubleSpace(t)
    requires forall c :: c in t ==> c !in MarkdownMarks
    ensures NoDoubleSpace(t[..60] + "...")
    ensures forall c :: c in t[..60] + "..." ==> c !in MarkdownMarks
  {
    var r := t[..60] + "...";
    forall k | 0 <= k < |r| - 1
      ensures !(IsSpace(r[k]) && IsSpace(r[k + 1]))
    {
      if k < 59 {
        assert r[k] == t[k] && r[k + 1] == t[k + 1];
      } else {
        assert r[k + 1] == '.';
      }
    }
    forall c | c in r
      ensures c !in MarkdownMarks
    {
      var k :| 0 <= k < |r| && r[k] == c;
      if k < 60 {
        assert r[k] == t[k];
      }
    }
  }

  /**
    The digest is the stripped text unchanged exactly when that text is at most
    60 characters long, or is 63 characters that already end in "...".
   */
  lemma DigestUnchangedIff(content: string)
    ensures ExtractDigest(content) == DigestText(content) <==>
      |DigestText(content)| <= 60 || (|DigestText(content)| == 63 && DigestText(content)[60..] == "...")
  {
    var t := DigestText(content);
    var r := ExtractDigest(content);
    if |t| > 60 {
      assert r[60..] == "...";
      if r == t {
        assert |t| == 63 && t[60..] == "...";
      }
      if |t| == 63 && t[60..] == "..." {
        assert t == t[..60] + t[60..];
      }
    }
  }

  /** No `<` is followed, anywhere later, by a `>`. */
  predicate NoCompleteTag(o: string) {
    forall a, b :: 0 <= a < b < |o| && o[a] == '<' ==> o[b] != '>'
  }

  /** A string opens no complete tag exactly when its tail does not and its head, if `<`, is never closed. */
  lemma NoCompleteTagCons(c: char, r: string)
    ensures NoCompleteTag([c] + r) <==> NoCompleteTag(r) && (c == '<' ==> '>' !in r)
  {
    var o := [c] + r;
    if NoCompleteTag(o) {
      forall a, b | 0 <= a < b < |r| && r[a] == '<' ensures r[b] != '>' {
        assert o[a + 1] == r[a] && o[b + 1] == r[b];
      }
      if c == '<' {
        forall b | 0 <= b < |r| ensures r[b] != '>' {
          assert o[0] == '<' && o[b + 1] == r[b];
        }
      }
    }
    if NoCompleteTag(r) && (c == '<' ==> '>' !in r) {
      forall a, b | 0 <= a < b < |o| && o[a] == '<' ensures o[b] != '>' {
        assert o[b] == r[b - 1];
        if a > 0 {
          assert o[a] == r[a - 1];
        }
      }
    }
  }

  /** Removing the marks, collapsing whitespace and trimming open no tag. */
  lemma CleanupNoTag(tagged: string)
    requires NoCompleteTag(tagged)
    ensures NoCompleteTag(Trim(CollapseSpaces(RemoveChars(tagged, MarkdownMarks))))
  {
    RemoveCharsNoTag(tagged, MarkdownMarks);
    var collapsed := CollapseSpaces(RemoveChars(tagged, MarkdownMarks));
    CollapseSpacesNoTag(RemoveChars(tagged, MarkdownMarks));
    TrimSlice(collapsed);
    var a, b :| 0 <= a <= b <= |collapsed| && Trim(collapsed) == collapsed[a..b];
    SliceNoTag(collapsed, a, b);
  }

  /** A slice of a string without a complete tag has none either. */
  lemma SliceNoTag(s: string, a: nat, b: nat)
    requires a <= b <= |s| && NoCompleteTag(s)
    ensures NoCompleteTag(s[a..b])
  {
    var o := s[a..b];
    forall i, j | 0 <= i < j < |o| && o[i] == '<' ensures o[j] != '>' {
      assert o[i] == s[a + i] && o[j] == s[a + j];
    }
  }

  /** Dropping characters opens no tag. */
  lemma {:induction false} RemoveCharsNoTag(s: string, cs: set<char>)
    requires NoCompleteTag(s)
    ensures NoCompleteTag(RemoveChars(s, cs))
    decreases |s|
  {
    if s != [] {
      assert s == [s[0]] + s[1..];
      NoCompleteTagCons(s[0], s[1..]);
      RemoveCharsNoTag(s[1..], cs);
      if s[0] !in cs {
        NoCompleteTagCons(s[0], RemoveChars(s[1..], cs));
      }
    }
  }

  /** Collapsing whitespace opens no tag: it only turns whitespace runs into one space. */
  lemma {:induction false} CollapseSpacesNoTag(s: string)
    requires NoCompleteTag(s)
    ensures NoCompleteTag(CollapseSpaces(s))
    decreases |s|
  {
    if s != [] {
      if IsSpace(s[0]) {
        var j := SkipSpaces(s, 0);
        SliceNoTag(s, j, |s|);
        assert s[j..|s|] == s[j..];
        CollapseSpacesNoTag(s[j..]);
        NoCompleteTagCons(' ', CollapseSpaces(s[j..]));
      } else {
        assert s == [s[0]] + s[1..];
        NoCompleteTagCons(s[0], s[1..]);
        CollapseSpacesNoTag(s[1..]);
        NoCompleteTagCons(s[0], CollapseSpaces(s[1..]));
      }
    }
  }

  /** Deleting tags only drops characters. */
  lemma {:induction false} TagPassChars(s: string, i: nat)
    requires i <= |s|
    ensures forall c :: c in ReplaceFrom(s, i, TagAt) ==> c in s[i..]
    decreases |s| - i
  {
    if i < |s| {
      var h := TagAt(s, i);
      if Advances(h, i, |s|) {
        TagPassChars(s, h.value.end);
        assert forall c :: c in s[h.value.end..] ==> c in s[i..];
      } else {
        TagPassChars(s, i + 1);
        assert s[i..] == [s[i]] + s[i + 1..];
      }
    }
  }

  /** After the tag pass no complete tag is left: a surviving `<` had no `>` after it. */
  lemma {:induction false} TagPassLeavesNoTag(s: string, i: nat)
    requires i <= |s|
    ensures NoCompleteTag(ReplaceFrom(s, i, TagAt))
    decreases |s| - i
  {
    if i < |s| {
      var h := TagAt(s, i);
      if Advances(h, i, |s|) {
        TagPassLeavesNoTag(s, h.value.end);
      } else {
        var rest := ReplaceFrom(s, i + 1, TagAt);
        TagPassLeavesNoTag(s, i + 1);
        TagPassChars(s, i + 1);
        var o := [s[i]] + rest;
        assert ReplaceFrom(s, i, TagAt) == o;
        if s[i] == '<' {
          assert '>' !in s[i + 1..];
          assert '>' !in rest;
        }
        forall a, b | 0 <= a < b < |o| && o[a] == '<'
          ensures o[b] != '>'
        {
          if a == 0 {
            assert o[b] == rest[b - 1];
          } else {
            assert o[a] == rest[a - 1] && o[b] == rest[b - 1];
          }
        }
      }
    }
  }
}
