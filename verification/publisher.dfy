/**
  The publishing tool (`src/tools/wechat-publisher.js`): the request flow from
  validation to the reply text, the text and colours of a generated cover, and
  the success and failure messages.

  The environment, the clock, the random source, the file system and the
  platform's replies are the fields of a `World` value. The Markdown converter
  is a parameter of the flow; the shipped tool passes
  `MdPipeline.ConvertToWeChatHtml`.
 */
module Publisher {
  import opened Wrappers
  import opened Text
  import Validator
  import Api = WeChatApi

  // ---------------------------------------------------------------------------
  // Cover text

  /** `[#*\`]`, stripped from the title. */
  const TitleMarks: set<char> := {'#', '*', '`'}

  /** `[#*\`<>]`, stripped from each candidate subtitle line. */
  const LineMarks: set<char> := {'#', '*', '`', '<', '>'}

  const DefaultSubtitle := "精彩内容，值得一读"

  /** The title without markdown marks, trimmed. */
  function CleanTitle(title: string): (t: string)
    ensures forall c :: c in t ==> c !in TitleMarks
    ensures t == [] || (!IsSpace(t[0]) && !IsSpace(t[|t| - 1]))
  {
    TrimChars(RemoveChars(title, TitleMarks));
    Trim(RemoveChars(title, TitleMarks))
  }

  /** The cover's title: the clean title, cut to 20 characters plus "..." when longer. */
  function ShortTitle(title: string): (r: string)
    ensures |r| <= 23
    ensures forall c :: c in r ==> c !in TitleMarks
    ensures |CleanTitle(title)| <= 20 ==> r == CleanTitle(title)
    ensures |CleanTitle(title)| > 20 ==> |r| == 23 && r[..20] == CleanTitle(title)[..20] && r[20..] == "..."
  {
    var t := CleanTitle(title);
    if |t| > 20 then
      assert forall c :: c in t[..20] ==> c in t;
      t[..20] + "..."
    else t
  }

  /** Shortening a short title changes nothing: the cover title is a fixed point. */
  lemma ShortTitleIdempotent(title: string)
    ensures ShortTitle(ShortTitle(title)) == ShortTitle(title)
  {
    var t := CleanTitle(title);
    var r := ShortTitle(title);
    RemoveCharsAbsent(r, TitleMarks);
    if |t| > 20 {
      assert r[0] == t[0] && r[|r| - 1] == '.';
    }
    TrimOfTrimmed(r);
    assert CleanTitle(r) == r;
  }

  /** A candidate line without its marks, trimmed. */
  function CleanLine(line: string): string {
    Trim(RemoveChars(line, LineMarks))
  }

  /** A line the subtitle search stops at: not blank, 11 to 49 clean code units, no link. */
  predicate Eligible(line: string) {
    && !AllSpace(line)
    && 10 < Utf16Length(CleanLine(line)) < 50
    && !Contains(CleanLine(line), "http")
  }

  predicate NoEligibleLine(lines: seq<string>) {
    forall k :: 0 <= k < |lines| ==> !Eligible(lines[k])
  }

  /** `t` is the clean text of the first eligible line. */
  predicate IsFirstEligible(lines: seq<string>, t: string) {
    exists k :: 0 <= k < |lines| && Eligible(lines[k]) && t == CleanLine(lines[k]) && NoEligibleLine(lines[..k])
  }

  /** The first line at or after `i` that `ok` accepts. */
  function FirstWhere(lines: seq<string>, i: nat, ok: string -> bool): (r: Option<nat>)
    requires i <= |lines|
    ensures r.Some? ==> i <= r.value < |lines| && ok(lines[r.value])
    ensures r.Some? ==> forall k :: i <= k < r.value ==> !ok(lines[k])
    ensures r.None? ==> forall k :: i <= k < |lines| ==> !ok(lines[k])
    decreases |lines| - i
  {
    if i == |lines| then None
    else if ok(lines[i]) then Some(i)
    else FirstWhere(lines, i + 1, ok)
  }

  /**
    The subtitle before it is cut: the clean text of the first eligible line of
    the content, or the fixed default when no line qualifies.
   */
  function FullSubtitle(content: string): (r: string)
    ensures r == DefaultSubtitle <==> NoEligibleLine(Split(content, '\n'))
    ensures r != DefaultSubtitle ==> IsFirstEligible(Split(content, '\n'), r)
    ensures r == DefaultSubtitle || (10 < Utf16Length(r) < 50 && !Contains(r, "http"))
    ensures 0 < |r| < 50
  {
    var lines := Split(content, '\n');
    var first := FirstWhere(lines, 0, Eligible);
    if first.Some? then
      var k := first.value;
      var r := CleanLine(lines[k]);
      Utf16LengthBmp(DefaultSubtitle);
      assert Utf16Length(r) > 10 && Utf16Length(DefaultSubtitle) == 9;
      assert r != DefaultSubtitle;
      assert !NoEligibleLine(lines);
      assert NoEligibleLine(lines[..k]);
      r
    else
      assert |DefaultSubtitle| == 9;
      DefaultSubtitle
  }

  /** `s.substring(0, n)`. */
  function Prefix(s: string, n: nat): (r: string)
    ensures |r| <= n && StartsWith(s, r)
    ensures r == s <==> |s| <= n
  {
    if |s| <= n then s else s[..n]
  }

  /** The subtitle drawn on the cover: at most 30 characters of the full subtitle. */
  function Subtitle(content: string): (r: string)
    ensures 0 < |r| <= 30
    ensures StartsWith(FullSubtitle(content), r)
    ensures r == FullSubtitle(content) <==> |FullSubtitle(content)| <= 30
  {
    var full := FullSubtitle(content);
    var r := Prefix(full, 30);
    assert |r| > 0 by {
      if |full| > 30 {
        assert |r| == 30;
      }
    }
    r
  }

  // ---------------------------------------------------------------------------
  // Colour theme

  datatype Theme = Theme(bg: string, text: string, accent: string)

  /** Blue, red, green, purple, orange and teal, in that order. */
  const Themes: seq<Theme> := [
    Theme("#3498db", "#ffffff", "#2980b9"),
    Theme("#e74c3c", "#ffffff", "#c0392b"),
    Theme("#2ecc71", "#ffffff", "#27ae60"),
    Theme("#9b59b6", "#ffffff", "#8e44ad"),
    Theme("#f39c12", "#ffffff", "#e67e22"),
    Theme("#1abc9c", "#ffffff", "#16a085")
  ]

  /** The keyword pairs tried in order; pair `j` selects theme `j`. */
  const ThemeKeywords: seq<(string, string)> := [
    ("AI", "技术"), ("重要", "紧急"), ("成功", "增长"), ("创新", "未来"), ("警告", "注意")
  ]

  predicate MentionsPair(title: string, j: nat)
    requires j < |ThemeKeywords|
  {
    Contains(title, ThemeKeywords[j].0) || Contains(title, ThemeKeywords[j].1)
  }

  /** The first keyword pair at or after `j` that the title mentions. */
  function KeywordTheme(title: string, j: nat): (r: Option<nat>)
    requires j <= |ThemeKeywords|
    ensures r.Some? ==> j <= r.value < |ThemeKeywords| && MentionsPair(title, r.value)
    ensures r.Some? ==> forall k :: j <= k < r.value ==> !MentionsPair(title, k)
    ensures r.None? ==> forall k :: j <= k < |ThemeKeywords| ==> !MentionsPair(title, k)
    decreases |ThemeKeywords| - j
  {
    if j == |ThemeKeywords| then None
    else if MentionsPair(title, j) then Some(j)
    else KeywordTheme(title, j + 1)
  }

  /**
    The theme index: the first keyword pair the title mentions, otherwise
    `Math.floor(roll * 6)` for the random `roll` in [0, 1).
   */
  function ThemeIndex(title: string, roll: real): (r: nat)
    requires 0.0 <= roll < 1.0
    ensures r < |Themes|
    ensures KeywordTheme(title, 0).Some? ==> r == KeywordTheme(title, 0).value
    ensures KeywordTheme(title, 0).None? ==> r as real <= roll * 6.0 < r as real + 1.0
  {
    match KeywordTheme(title, 0)
    case Some(j) => j
    case None => (roll * 6.0).Floor
  }

  /** A title naming a keyword gets the same theme whatever the random roll. */
  lemma KeywordThemeIgnoresRoll(title: string, u: real, v: real)
    requires 0.0 <= u < 1.0 && 0.0 <= v < 1.0
    requires exists j :: 0 <= j < |ThemeKeywords| && MentionsPair(title, j)
    ensures ThemeIndex(title, u) == ThemeIndex(title, v) < 5
  {
    var j :| 0 <= j < |ThemeKeywords| && MentionsPair(title, j);
    assert KeywordTheme(title, 0).Some?;
  }

  /** Without a keyword every theme is reachable: roll `n/6` gives theme `n`. */
  lemma RollReachesEveryTheme(title: string, n: nat)
    requires n < |Themes|
    requires forall j :: 0 <= j < |ThemeKeywords| ==> !MentionsPair(title, j)
    ensures ThemeIndex(title, n as real / 6.0) == n
  {
    assert KeywordTheme(title, 0).None?;
  }

  // ---------------------------------------------------------------------------
  // Generated cover

  /** What `generateCoverImage` draws and where it writes it. */
  datatype CoverPlan = CoverPlan(title: string, subtitle: string, theme: Theme, path: string)

  /** `path.join(os.tmpdir(), \`auto-cover-${timestamp}.png\`)` for a normalised `tmpdir`. */
  function TempCoverPath(tmpdir: string, timestamp: nat): (r: string)
    ensures StartsWith(r, tmpdir) && EndsWith(r, ".png")
  {
    var r := tmpdir + "/auto-cover-" + NatToString(timestamp) + ".png";
    assert r[..|tmpdir|] == tmpdir;
    r
  }

  /** The cover planned for an article. */
  function PlanCover(title: string, content: string, roll: real, tmpdir: string, timestamp: nat): (r: CoverPlan)
    requires 0.0 <= roll < 1.0
    ensures r.title == ShortTitle(title) && r.subtitle == Subtitle(content)
    ensures r.theme == Themes[ThemeIndex(title, roll)]
    ensures |r.title| <= 23 && 0 < |r.subtitle| <= 30 && r.theme in Themes
    ensures r.path == TempCoverPath(tmpdir, timestamp)
  {
    CoverPlan(ShortTitle(title), Subtitle(content), Themes[ThemeIndex(title, roll)], TempCoverPath(tmpdir, timestamp))
  }

  /** `outputPath.replace(/\.png$/, '.svg')`: the name the vector fallback writes to. */
  function SvgPath(outputPath: string): (r: string)
    ensures |r| == |outputPath|
    ensures EndsWith(outputPath, ".png") ==>
      r[..|r| - 4] == outputPath[..|outputPath| - 4] && EndsWith(r, ".svg")
    ensures !EndsWith(outputPath, ".png") ==> r == outputPath
  {
    if EndsWith(outputPath, ".png") then outputPath[..|outputPath| - 4] + ".svg" else outputPath
  }

  /**
    The vector fallback never writes the file the generator then inspects: for a
    planned cover the two names differ only in the extension.
   */
  lemma SvgFallbackNamesAnotherFile(tmpdir: string, timestamp: nat)
    ensures var png := TempCoverPath(tmpdir, timestamp);
      SvgPath(png) != png && SvgPath(png) == png[..|png| - 4] + ".svg"
  {
    var png := TempCoverPath(tmpdir, timestamp);
    var svg := SvgPath(png);
    assert svg[|svg| - 3] == 's' && png[|png| - 3] == 'p';
  }

  /** A planned cover has an image extension, so only its directory can make the upload refuse it. */
  lemma TempCoverHasImageExtension(tmpdir: string, timestamp: nat)
    ensures Validator.HasImageExtension(TempCoverPath(tmpdir, timestamp))
  {
    var p := TempCoverPath(tmpdir, timestamp);
    var low := AsciiLower(p);
    assert low[|low| - 4..] == ".png";
    assert EndsWith(low, Validator.SupportedExtensions[2]);
  }

  /**
    A temporary directory under `/var/` (the usual one on macOS) makes the
    generated cover's own path fail the upload's path check.
   */
  lemma TempCoverUnderVarRefused(tmpdir: string, timestamp: nat)
    requires Contains(tmpdir, "/var/")
    ensures !Validator.ValidateFilePath(TempCoverPath(tmpdir, timestamp)).valid
  {
    var p := TempCoverPath(tmpdir, timestamp);
    assert p[..|tmpdir|] == tmpdir;
    ContainsPrefixOf(p, "/var/", |tmpdir|);
    assert Contains(p, Validator.SensitiveParts[1]);
    assert Validator.SensitiveLocation in Validator.ValidateFilePath(p).errors;
  }

  // ---------------------------------------------------------------------------
  // Messages

  /** One line of the success report, in the order the report lists them. */
  datatype ReportLine =
    | Done(preview: bool)
    | TitleLine(title: string)
    | AuthorLine(author: string)
    | PublishIdLine(publishId: Api.Scalar)
    | MsgIdLine(msgId: Api.Scalar)
    | CoverLine
    | TimeLine(ms: int)
    | Closing(text: string)

  function RenderReportLine(l: ReportLine): string {
    match l
    case Done(preview) => (if preview then "👀 文章预览" else "✅ 文章发布") + "操作完成！\n\n"
    case TitleLine(t) => "📱 标题: " + t + "\n"
    case AuthorLine(a) => "👤 作者: " + a + "\n"
    case PublishIdLine(x) => "📊 发布ID: " + Api.ScalarText(x) + "\n"
    case MsgIdLine(x) => "📨 消息ID: " + Api.ScalarText(x) + "\n"
    case CoverLine => "🖼️ 封面图: 已上传\n"
    case TimeLine(ms) => "⏱️ 处理时间: " + IntToString(ms) + "ms\n"
    case Closing(t) => "\n" + t
  }

  const SubmittedClosing := "🎉 您的文章已提交成功！请登录微信公众平台后台查看进度。"

  const PreviewClosing := "👀 预览已发送到指定用户，请检查微信查看效果。"

  /** `when` as a one-element or empty list. */
  function Include<T>(when: bool, x: T): seq<T> {
    if when then [x] else []
  }

  /** The id line for a truthy `publishId`. */
  function PublishIdLines(id: Option<Api.Scalar>): (r: seq<ReportLine>)
    ensures (exists l :: l in r && l.PublishIdLine?) <==> Api.Truthy(id)
    ensures forall l :: l in r ==> l.PublishIdLine?
  {
    if Api.Truthy(id) then
      assert PublishIdLine(id.value) in [PublishIdLine(id.value)];
      [PublishIdLine(id.value)]
    else []
  }

  /** The id line for a truthy `msgId`. */
  function MsgIdLines(id: Option<Api.Scalar>): (r: seq<ReportLine>)
    ensures (exists l :: l in r && l.MsgIdLine?) <==> Api.Truthy(id)
    ensures forall l :: l in r ==> l.MsgIdLine?
  {
    if Api.Truthy(id) then
      assert MsgIdLine(id.value) in [MsgIdLine(id.value)];
      [MsgIdLine(id.value)]
    else []
  }

  /**
    The lines of the success report: the outcome, title and author always, then
    the id lines, the cover line when a cover was uploaded, the time, and the
    platform's message or the mode's default closing.
   */
  function ReportLines(title: string, author: Option<string>, result: Api.Published, preview: bool, ms: int, thumb: Option<string>): (r: seq<ReportLine>)
    ensures 5 <= |r| <= 8
    ensures r[0] == Done(preview) && r[1] == TitleLine(title) && r[2] == AuthorLine(Api.Shown(author))
    ensures r[|r| - 2] == TimeLine(ms)
    ensures Validator.Given(result.message) ==> r[|r| - 1] == Closing(result.message.value)
    ensures !Validator.Given(result.message) ==> r[|r| - 1] == Closing(if preview then PreviewClosing else SubmittedClosing)
  {
    var closing := if Validator.Given(result.message) then result.message.value
      else if preview then PreviewClosing else SubmittedClosing;
    [Done(preview), TitleLine(title), AuthorLine(Api.Shown(author))]
      + PublishIdLines(result.publishId) + MsgIdLines(result.msgId)
      + Include(Validator.Given(thumb), CoverLine) + [TimeLine(ms), Closing(closing)]
  }

  /** Each optional line of the success report is present exactly when its value is truthy. */
  lemma ReportOptionalLines(title: string, author: Option<string>, result: Api.Published, preview: bool, ms: int, thumb: Option<string>)
    ensures var r := ReportLines(title, author, result, preview, ms, thumb);
      && ((exists l :: l in r && l.PublishIdLine?) <==> Api.Truthy(result.publishId))
      && ((exists l :: l in r && l.MsgIdLine?) <==> Api.Truthy(result.msgId))
      && (CoverLine in r <==> Validator.Given(thumb))
  {
    var r := ReportLines(title, author, result, preview, ms, thumb);
    var ids := PublishIdLines(result.publishId);
    var msgs := MsgIdLines(result.msgId);
    assert forall l :: l in r && !(l in ids) && !(l in msgs) ==> !l.PublishIdLine? && !l.MsgIdLine?;
    assert forall l :: l in ids ==> l in r;
    assert forall l :: l in msgs ==> l in r;
  }

  /** `buildSuccessMessage`: the report lines, concatenated. */
  function BuildSuccessMessage(title: string, author: Option<string>, result: Api.Published, preview: bool, ms: int, thumb: Option<string>): string {
    ToolText(Reported(ReportLines(title, author, result, preview, ms, thumb)))
  }

  /** One block of the failure report, in the order the report lists them. */
  datatype Advice = Failure(message: string) | CredentialAdvice | IpAdvice | CoverAdvice | GeneralAdvice

  function AdviceRank(a: Advice): nat {
    match a
    case Failure(_) => 0
    case CredentialAdvice => 1
    case IpAdvice => 2
    case CoverAdvice => 3
    case GeneralAdvice => 4
  }

  function RenderAdvice(a: Advice): string {
    match a
    case Failure(m) => "❌ 发布失败: " + m + "\n\n"
    case CredentialAdvice =>
      "🔑 AppID/AppSecret问题:\n• 检查微信公众号AppID和AppSecret是否正确\n• 确认公众号类型是否支持发布接口\n• 验证公众号是否已认证\n\n"
    case IpAdvice =>
      "🌐 IP白名单问题:\n• 将服务器IP添加到微信公众平台的IP白名单\n• 登录微信公众平台 -> 开发 -> 基本配置 -> IP白名单\n\n"
    case CoverAdvice =>
      "🖼️ 封面图问题:\n• 检查图片路径是否正确\n• 确认图片格式为PNG、JPG或JPEG\n• 验证图片大小不超过1MB\n\n"
    case GeneralAdvice =>
      "💡 通用解决方案:\n• 检查网络连接是否正常\n• 确认所有必需参数都已提供\n• 查看微信公众平台是否有维护通知\n• 如问题持续，请联系技术支持"
  }

  /**
    The blocks of the failure report: the message first and the general advice
    last; each specific block appears exactly when the message names its topic,
    and no block appears twice or out of order.
   */
  function ErrorAdvice(message: string): (r: seq<Advice>)
    ensures 2 <= |r| && r[0] == Failure(message) && r[|r| - 1] == GeneralAdvice
    ensures CredentialAdvice in r <==> Contains(message, "access_token")
    ensures IpAdvice in r <==> Contains(message, "ip")
    ensures CoverAdvice in r <==> Contains(message, "media") || Contains(message, "图")
    ensures forall i, j :: 0 <= i < j < |r| ==> AdviceRank(r[i]) < AdviceRank(r[j])
  {
    var credential := Contains(message, "access_token");
    var ip := Contains(message, "ip");
    var cover := Contains(message, "media") || Contains(message, "图");
    AdviceBlocks(message, credential, ip, cover);
    Blocks(message, credential, ip, cover)
  }

  /** The advice list for given topic flags. */
  function Blocks(message: string, credential: bool, ip: bool, cover: bool): seq<Advice> {
    [Failure(message)] + Include(credential, CredentialAdvice) + Include(ip, IpAdvice)
      + Include(cover, CoverAdvice) + [GeneralAdvice]
  }

  /** Each topic block is present exactly when its flag is set, between the fixed first and last blocks, in rank order. */
  lemma AdviceBlocks(message: string, credential: bool, ip: bool, cover: bool)
    ensures var r := Blocks(message, credential, ip, cover);
      && 2 <= |r| && r[0] == Failure(message) && r[|r| - 1] == GeneralAdvice
      && (CredentialAdvice in r <==> credential) && (IpAdvice in r <==> ip) && (CoverAdvice in r <==> cover)
      && forall i, j :: 0 <= i < j < |r| ==> AdviceRank(r[i]) < AdviceRank(r[j])
  {
  }

  /** `buildErrorMessage`: the advice blocks, concatenated. */
  function BuildErrorMessage(message: string): string {
    ToolText(Refused(ErrorAdvice(message)))
  }

  // ---------------------------------------------------------------------------
  // The publish flow

  /** Everything outside the tool that `publish` consults. */
  datatype World = World(
    envAppId: Option<string>,      // WECHAT_APP_ID
    envAppSecret: Option<string>,  // WECHAT_APP_SECRET
    now: int,                      // the clock during the remote calls
    elapsed: int,                  // the reported execution time
    tmpdir: string,                // os.tmpdir()
    timestamp: nat,                // the clock when the cover is named
    roll: real,                    // Math.random()
    rendered: bool,                // the raster cover was written and found again
    tokenReply: Api.Reply,         // what the token endpoint answers
    coverStat: Api.FileStat,       // fs.stat of the cover
    coverReply: Api.Reply,         // the permanent-material upload
    draftReply: Api.Reply,         // draft/add
    submitReply: Api.Reply,        // freepublish/submit
    newsReply: Api.Reply,          // media/uploadnews
    previewReply: Api.Reply)       // message/mass/preview

  /** The credentials fall back to the environment when the request leaves them empty. */
  function WithEnvironment(p: Validator.Params, envAppId: Option<string>, envAppSecret: Option<string>): (q: Validator.Params)
    ensures q.appId == (if Validator.Given(p.appId) then p.appId else envAppId)
    ensures q.appSecret == (if Validator.Given(p.appSecret) then p.appSecret else envAppSecret)
    ensures q.(appId := p.appId, appSecret := p.appSecret) == p
  {
    p.(appId := if Validator.Given(p.appId) then p.appId else envAppId,
       appSecret := if Validator.Given(p.appSecret) then p.appSecret else envAppSecret)
  }

  /** `previewMode` is truthy; it defaults to `false`. */
  predicate PreviewMode(p: Validator.Params) {
    p.previewMode == Some(true)
  }

  /** The tool's reply: the success report or the failure advice (`isError`). */
  datatype ToolReply = Reported(lines: seq<ReportLine>) | Refused(advice: seq<Advice>)

  /** The reply's text. */
  function ToolText(t: ToolReply): string {
    match t
    case Reported(lines) => Join(seq(|lines|, k requires 0 <= k < |lines| => RenderReportLine(lines[k])), "")
    case Refused(blocks) => Join(seq(|blocks|, k requires 0 <= k < |blocks| => RenderAdvice(blocks[k])), "")
  }

  /** The `catch` of `publish`: every thrown error becomes the failure advice for its message. */
  function Thrown(message: string): ToolReply {
    Refused(ErrorAdvice(message))
  }

  /** The article call the flow makes. */
  datatype ArticleCall = Previewed | Submitted

  /** A run of `publish`: the reply, what each stage did, the remote calls made and the cover id obtained. */
  datatype Run = Run(
    reply: ToolReply,
    converted: Option<string>,     // the article body, once converted
    plan: Option<CoverPlan>,       // the cover generated, if one was
    uploaded: Option<string>,      // the path handed to the upload
    removed: Option<string>,       // the temporary cover deleted
    article: Option<ArticleCall>,  // the article call made
    calls: seq<Api.Call>,          // the remote calls, in order
    thumb: Option<string>)         // the cover's media id

  /** The cover path the flow uploads, if any. */
  function ResolveCover(p: Validator.Params, w: World): (r: Option<string>)
    ensures p.coverImagePath == Some(Validator.NoCover) ==> r.None?
    ensures Validator.Given(p.coverImagePath) && p.coverImagePath != Some(Validator.NoCover) ==> r == p.coverImagePath
    ensures !Validator.Given(p.coverImagePath) ==>
      (r.Some? <==> w.rendered) && (r.Some? ==> r.value == TempCoverPath(w.tmpdir, w.timestamp))
  {
    if p.coverImagePath == Some(Validator.NoCover) then None
    else if Validator.Given(p.coverImagePath) then p.coverImagePath
    else if w.rendered then Some(TempCoverPath(w.tmpdir, w.timestamp))
    else None
  }

  /** What the cover stage leaves behind. */
  datatype Uploaded = Uploaded(thumb: Option<string>, cache: Api.TokenCache, calls: seq<Api.Call>, removed: Option<string>)

  /**
    The upload stage: a failed upload is only logged, and the file is deleted
    after a successful upload of a path the caller did not supply.
   */
  function UploadStage(cover: Option<string>, supplied: Option<string>, w: World): (u: Uploaded)
    ensures cover.None? ==> u == Uploaded(None, Api.NewClient, [], None)
    ensures u.thumb.Some? ==> cover.Some? && u.thumb.value != [] && Api.MaterialAdd in u.calls
    ensures u.removed.Some? <==> u.thumb.Some? && supplied != cover
    ensures u.removed.Some? ==> u.removed == cover
    ensures forall k :: 0 <= k < |u.calls| ==> u.calls[k] == Api.TokenFetch || u.calls[k] == Api.MaterialAdd
  {
    match cover
    case None => Uploaded(None, Api.NewClient, [], None)
    case Some(x) =>
      var o := Api.UploadCoverImage(Api.NewClient, w.now, x, w.tokenReply, w.coverStat, w.coverReply);
      if o.result.Ok? then
        Uploaded(Some(o.result.value), o.cache, o.calls, if supplied != Some(x) then Some(x) else None)
      else Uploaded(None, o.cache, o.calls, None)
  }

  const PreviewNeedsOpenIdMessage := "预览模式需要提供previewOpenId参数"

  /** What the article stage returns. */
  datatype Answer = Answer(result: Result<Api.Published, string>, calls: seq<Api.Call>, article: Option<ArticleCall>)

  /**
    The article stage: preview mode only previews, otherwise the article is only
    published; the publish call is never asked for a preview.
   */
  function ArticleStage(p: Validator.Params, html: string, u: Uploaded, w: World): (a: Answer)
    ensures PreviewMode(p) && !Validator.Given(p.previewOpenId) ==> a == Answer(Err(PreviewNeedsOpenIdMessage), [], None)
    ensures PreviewMode(p) && Validator.Given(p.previewOpenId) ==> a.article == Some(Previewed)
    ensures !PreviewMode(p) ==> a.article == Some(Submitted)
    ensures PreviewMode(p) ==> Api.FreePublish !in a.calls && Api.DraftAdd !in a.calls && Api.MaterialAdd !in a.calls
    ensures !PreviewMode(p) ==> Api.MassPreview !in a.calls && Api.UploadNews !in a.calls && Api.MaterialAdd !in a.calls
    ensures !PreviewMode(p) && a.result.Ok? ==> u.thumb.Some?
    ensures !PreviewMode(p) && u.thumb.None? ==> a.result.Err?
  {
    if PreviewMode(p) then
      if !Validator.Given(p.previewOpenId) then Answer(Err(PreviewNeedsOpenIdMessage), [], None)
      else
        var o := Api.PreviewArticle(u.cache, w.now, w.tokenReply, w.newsReply, w.previewReply);
        Answer(o.result, o.calls, Some(Previewed))
    else
      var d := Api.Draft(Api.Shown(p.title), html, p.author, u.thumb, false, None);
      var o := Api.PublishArticle(u.cache, w.now, w.tokenReply, d, w.draftReply, w.previewReply, w.submitReply);
      Answer(o.result, o.calls, Some(Submitted))
  }

  /** The request after the environment fallback, as `publish` validates it. */
  function Effective(params: Validator.Params, w: World): Validator.Params {
    WithEnvironment(params, w.envAppId, w.envAppSecret)
  }

  /**
    Whether `publish` accepts the request, stated field by field: by
    `Validator.PublishValidIff` this is exactly when its validation passes.
   */
  predicate Accepted(params: Validator.Params, w: World) {
    Validator.PublishAcceptable(Effective(params, w))
  }

  /**
    Whether the corrected flow accepts the request: by
    `Validator.AllowingNoneValidIff` this is exactly when the validation that
    reads "none" as "no cover" passes.
   */
  predicate AcceptedCorrected(params: Validator.Params, w: World) {
    Validator.PublishAcceptable(Validator.WithoutSentinel(Effective(params, w)))
  }

  /** The flow once the request is accepted: convert, cover, article call, report. */
  function Proceed(p: Validator.Params, w: World, convert: Option<string> -> string): (r: Run)
    requires 0.0 <= w.roll < 1.0
    ensures r.converted == Some(convert(p.content))
    ensures r.plan.Some? <==> !Validator.Given(p.coverImagePath)
    ensures r.uploaded == ResolveCover(p, w)
    ensures PreviewMode(p) && Validator.Given(p.previewOpenId) ==>
      r.article == Some(Previewed) && Api.FreePublish !in r.calls && Api.DraftAdd !in r.calls
    ensures !PreviewMode(p) ==>
      r.article == Some(Submitted) && Api.MassPreview !in r.calls && Api.UploadNews !in r.calls
  {
    var html := convert(p.content);
    var plan :=
      if Validator.Given(p.coverImagePath) then None
      else Some(PlanCover(p.title.GetOr([]), p.content.GetOr([]), w.roll, w.tmpdir, w.timestamp));
    var cover := ResolveCover(p, w);
    var u := UploadStage(cover, p.coverImagePath, w);
    var a := ArticleStage(p, html, u, w);
    CoverCallsOnly(u.calls, a.calls);
    Run(ReplyFor(p, w, u, a), Some(html), plan, cover, u.removed, a.article, u.calls + a.calls, u.thumb)
  }

  /** The tool's reply to the article stage's outcome: the report, or the error's advice. */
  function ReplyFor(p: Validator.Params, w: World, u: Uploaded, a: Answer): (t: ToolReply)
    ensures t.Reported? <==> a.result.Ok?
    ensures a.result.Err? ==> t == Thrown(a.result.error)
  {
    match a.result
    case Ok(published) => Reported(ReportLines(Api.Shown(p.title), p.author, published, PreviewMode(p), w.elapsed, u.thumb))
    case Err(m) => Thrown(m)
  }

  /** The upload stage's calls add no article call to those of the article stage. */
  lemma CoverCallsOnly(cover: seq<Api.Call>, article: seq<Api.Call>)
    requires forall k :: 0 <= k < |cover| ==> cover[k] == Api.TokenFetch || cover[k] == Api.MaterialAdd
    ensures forall c :: c != Api.TokenFetch && c != Api.MaterialAdd ==> (c in cover + article <==> c in article)
  {
  }

  /** The run of a request that validation refuses: the joined messages, and nothing else happens. */
  function Invalid(errors: seq<Validator.Error>): Run {
    Run(Thrown("参数验证失败: " + Join(Validator.Messages(errors), ", ")), None, None, None, None, None, [], None)
  }

  /**
    `publish`, for a given Markdown converter: validate, then proceed. A
    rejected request stops before any other stage and is reported as an error.
   */
  function Publish(params: Validator.Params, w: World, convert: Option<string> -> string): (r: Run)
    requires 0.0 <= w.roll < 1.0
    ensures var v := Validator.ValidatePublishParams(Effective(params, w));
      !v.valid ==> r == Invalid(v.errors)
    ensures Accepted(params, w) ==> r == Proceed(Effective(params, w), w, convert)
    ensures r.converted.Some? <==> Accepted(params, w)
    ensures r.reply.Reported? ==> Accepted(params, w)
  {
    var p := Effective(params, w);
    var v := Validator.ValidatePublishParams(p);
    Validator.PublishValidIff(p);
    if !v.valid then Invalid(v.errors) else Proceed(p, w, convert)
  }

  /**
    `publish` with the "none" cover honoured as "no cover" at validation, so that
    the flow's own "none" branch can be reached. On every other request it is
    `Publish`.
   */
  function PublishCorrected(params: Validator.Params, w: World, convert: Option<string> -> string): (r: Run)
    requires 0.0 <= w.roll < 1.0
    ensures var v := Validator.ValidatePublishParamsAllowingNone(Effective(params, w));
      !v.valid ==> r == Invalid(v.errors)
    ensures AcceptedCorrected(params, w) ==> r == Proceed(Effective(params, w), w, convert)
    ensures r.converted.Some? <==> AcceptedCorrected(params, w)
    ensures Effective(params, w).coverImagePath != Some(Validator.NoCover) ==> r == Publish(params, w, convert)
  {
    var p := Effective(params, w);
    var v := Validator.ValidatePublishParamsAllowingNone(p);
    Validator.AllowingNoneValidIff(p);
    if !v.valid then Invalid(v.errors) else Proceed(p, w, convert)
  }

  // ---------------------------------------------------------------------------
  // Properties of the flow

  /** Validation already demands an OpenID in preview mode, so the flow's own check never fires. */
  lemma PreviewOpenIdPresent(p: Validator.Params)
    ensures Validator.ValidatePublishParams(p).valid && PreviewMode(p) ==> Validator.Given(p.previewOpenId)
  {
    Validator.PublishValidIff(p);
  }

  /** An accepted request makes exactly one article call: a preview in preview mode, a publish otherwise. */
  lemma OneArticleCall(params: Validator.Params, w: World, convert: Option<string> -> string)
    requires 0.0 <= w.roll < 1.0 && Accepted(params, w)
    ensures var p := Effective(params, w); var r := Publish(params, w, convert);
      && r.article == Some(if PreviewMode(p) then Previewed else Submitted)
      && (PreviewMode(p) ==> Api.FreePublish !in r.calls && Api.DraftAdd !in r.calls)
      && (!PreviewMode(p) ==> Api.MassPreview !in r.calls && Api.UploadNews !in r.calls)
  {
    var p := Effective(params, w);
    assert Publish(params, w, convert) == Proceed(p, w, convert);
  }

  /**
    As written, a `"none"` cover never reaches the flow: validation checks it as a
    file path and refuses it, so nothing is converted, generated or called.
   */
  lemma NoneCoverRefused(params: Validator.Params, w: World, convert: Option<string> -> string)
    requires 0.0 <= w.roll < 1.0
    requires Effective(params, w).coverImagePath == Some(Validator.NoCover)
    ensures var v := Validator.ValidatePublishParams(Effective(params, w));
      && Validator.BadPath(Validator.UnsupportedFormat) in v.errors
      && Publish(params, w, convert) == Invalid(v.errors)
  {
    Validator.NoneSentinelRejected(Effective(params, w));
  }

  /**
    In the corrected flow the `"none"` cover skips generation and upload, so
    publishing (not previewing) then fails for want of a cover id.
   */
  lemma NoneCoverSkipsUpload(params: Validator.Params, w: World, convert: Option<string> -> string)
    requires 0.0 <= w.roll < 1.0 && AcceptedCorrected(params, w)
    requires Effective(params, w).coverImagePath == Some(Validator.NoCover)
    ensures var r := PublishCorrected(params, w, convert);
      && r.converted.Some? && r.plan.None? && r.uploaded.None? && r.thumb.None? && Api.MaterialAdd !in r.calls
      && (!PreviewMode(Effective(params, w)) ==> r.reply.Refused?)
  {
  }

  /** A cover the caller names is uploaded as given and never deleted. */
  lemma ExplicitCoverUsedAsIs(params: Validator.Params, w: World, convert: Option<string> -> string)
    requires 0.0 <= w.roll < 1.0 && Accepted(params, w)
    requires var c := Effective(params, w).coverImagePath; Validator.Given(c) && c != Some(Validator.NoCover)
    ensures var r := Publish(params, w, convert);
      r.plan.None? && r.uploaded == Effective(params, w).coverImagePath && r.removed.None?
  {
  }

  /**
    Without a cover one is planned from the title and content; it is uploaded
    when it could be written, and deleted exactly when the upload succeeded.
   */
  lemma MissingCoverGenerated(params: Validator.Params, w: World, convert: Option<string> -> string)
    requires 0.0 <= w.roll < 1.0 && Accepted(params, w)
    requires !Validator.Given(Effective(params, w).coverImagePath)
    ensures var p := Effective(params, w); var r := Publish(params, w, convert);
      var png := TempCoverPath(w.tmpdir, w.timestamp);
      && r.plan == Some(PlanCover(p.title.GetOr([]), p.content.GetOr([]), w.roll, w.tmpdir, w.timestamp))
      && r.uploaded == (if w.rendered then Some(png) else None)
      && r.removed == (if r.thumb.Some? then Some(png) else None)
  {
    assert TempCoverPath(w.tmpdir, w.timestamp) != [];
  }

  /** A failed upload is not fatal: the article call is still made, without a cover id. */
  lemma UploadFailureNotFatal(params: Validator.Params, w: World, convert: Option<string> -> string)
    requires 0.0 <= w.roll < 1.0 && Accepted(params, w)
    requires var c := ResolveCover(Effective(params, w), w);
      c.Some? && Api.UploadCoverImage(Api.NewClient, w.now, c.value, w.tokenReply, w.coverStat, w.coverReply).result.Err?
    ensures var r := Publish(params, w, convert);
      r.thumb.None? && r.removed.None? && r.article.Some?
  {
    OneArticleCall(params, w, convert);
  }

  /** A successful publish (not a preview) always carries an uploaded cover, and its report says so. */
  lemma PublishedHasCover(params: Validator.Params, w: World, convert: Option<string> -> string)
    requires 0.0 <= w.roll < 1.0
    ensures var r := Publish(params, w, convert);
      r.reply.Reported? && !PreviewMode(Effective(params, w)) ==>
        r.thumb.Some? && Api.MaterialAdd in r.calls && CoverLine in r.reply.lines
  {
  }

  /**
    When the temporary directory lies under `/var/`, a generated cover is refused
    by the upload's own path check, so publishing without a cover fails.
   */
  lemma GeneratedCoverUnderVarFails(params: Validator.Params, w: World, convert: Option<string> -> string)
    requires 0.0 <= w.roll < 1.0 && Accepted(params, w)
    requires !Validator.Given(Effective(params, w).coverImagePath) && Contains(w.tmpdir, "/var/")
    ensures var r := Publish(params, w, convert);
      && r.thumb.None? && Api.MaterialAdd !in r.calls
      && (!PreviewMode(Effective(params, w)) ==> r.reply.Refused?)
  {
    TempCoverUnderVarRefused(w.tmpdir, w.timestamp);
  }
}
