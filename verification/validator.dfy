/**
  Request validation, sanitising and the keyword parser (`src/utils/validator.js`).

  A request is a record of optional fields. String fields hold `None` for a
  missing key; the schema the server registers guarantees that a present field
  has the declared type, so the validator's type checks never fire here.
 */
module Validator {
  import opened Wrappers
  import opened Text
  import opened Rewrite

  /** Every field either tool accepts. */
  datatype Params = Params(
    title: Option<string>,
    content: Option<string>,
    author: Option<string>,
    appId: Option<string>,
    appSecret: Option<string>,
    coverImagePath: Option<string>,
    previewMode: Option<bool>,
    previewOpenId: Option<string>,
    msgId: Option<string>)

  const NoParams := Params(None, None, None, None, None, None, None, None, None)

  /** A JavaScript truthy string: present and not empty. */
  predicate Given(o: Option<string>) {
    o.Some? && o.value != []
  }

  /** The "required" test: missing, or nothing but whitespace once trimmed. */
  predicate Missing(o: Option<string>) {
    o.None? || AllSpace(o.value)
  }

  // ---------------------------------------------------------------------------
  // Error reports

  datatype PathError = PathEmpty | UnsupportedFormat | Traversal | SensitiveLocation

  datatype Error =
    | TitleRequired | ContentRequired | AppIdRequired | AppSecretRequired | MsgIdRequired
    | BadPath(path: PathError)
    | TitleTooLong | AuthorTooLong | ContentTooLong
    | AppIdPrefix | AppIdLength | AppSecretLength
    | PreviewNeedsOpenId | OpenIdFormat | MsgIdFormat

  datatype Validation<E> = Validation(valid: bool, errors: seq<E>)

  /** A rule's contribution to the error list. */
  function When<E>(fires: bool, e: E): seq<E> {
    if fires then [e] else []
  }

  /** The report a rule list yields: valid exactly when nothing fired. */
  function Report<E>(errors: seq<E>): (r: Validation<E>)
    ensures r.valid <==> r.errors == []
    ensures r.errors == errors
  {
    Validation(errors == [], errors)
  }

  const SupportedExtensions: seq<string> := [".jpg", ".jpeg", ".png", ".gif", ".webp"]

  const SensitiveParts: seq<string> := ["/etc/", "/var/", "/usr/", "C:\\Windows", "node_modules", ".git", ".env"]

  function PathMessage(e: PathError): string {
    match e
    case PathEmpty => "文件路径不能为空"
    case UnsupportedFormat => "不支持的文件格式，支持格式：" + Join(SupportedExtensions, ", ")
    case Traversal => "文件路径不能包含\"..\"字符，禁止目录遍历"
    case SensitiveLocation => "路径包含敏感目录/文件，禁止访问"
  }

  /** The text each error is reported with. */
  function Message(e: Error): string {
    match e
    case TitleRequired => "title参数是必需的，且不能为空字符串"
    case ContentRequired => "content参数是必需的，且不能为空字符串"
    case AppIdRequired => "appId参数是必需的，且不能为空字符串"
    case AppSecretRequired => "appSecret参数是必需的，且不能为空字符串"
    case MsgIdRequired => "msgId参数是必需的，且不能为空字符串"
    case BadPath(p) => PathMessage(p)
    case TitleTooLong => "标题长度不能超过64个字符"
    case AuthorTooLong => "作者名称长度不能超过8个字符"
    case ContentTooLong => "文章内容长度不能超过200,000个字符"
    case AppIdPrefix => "AppID格式错误，应该以\"wx\"开头"
    case AppIdLength => "AppID长度应该为18个字符"
    case AppSecretLength => "AppSecret长度应该为32个字符"
    case PreviewNeedsOpenId => "预览模式下必须提供previewOpenId参数"
    case OpenIdFormat => "previewOpenId格式不正确"
    case MsgIdFormat => "msgId格式不正确，应该是数字字符串"
  }

  /** The reported texts, in order. */
  function Messages(es: seq<Error>): (r: seq<string>)
    ensures |r| == |es|
    ensures forall i :: 0 <= i < |es| ==> r[i] == Message(es[i])
  {
    seq(|es|, i requires 0 <= i < |es| => Message(es[i]))
  }

  function PathMessages(es: seq<PathError>): (r: seq<string>)
    ensures |r| == |es|
    ensures forall i :: 0 <= i < |es| ==> r[i] == PathMessage(es[i])
  {
    seq(|es|, i requires 0 <= i < |es| => PathMessage(es[i]))
  }

  // ---------------------------------------------------------------------------
  // Single-field formats

  predicate IsOpenIdChar(c: char) {
    ('a' <= c <= 'z') || ('A' <= c <= 'Z') || IsDigit(c) || c == '_' || c == '-'
  }

  /** `^[a-zA-Z0-9_-]{1,50}$` */
  predicate IsValidOpenId(s: string) {
    1 <= |s| <= 50 && forall i :: 0 <= i < |s| ==> IsOpenIdChar(s[i])
  }

  /** `^\d+$` */
  predicate IsValidMsgId(s: string) {
    |s| >= 1 && forall i :: 0 <= i < |s| ==> IsDigit(s[i])
  }

  /** The lower-cased path ends with one of the image extensions. */
  predicate HasImageExtension(path: string) {
    exists i :: 0 <= i < |SupportedExtensions| && EndsWith(AsciiLower(path), SupportedExtensions[i])
  }

  predicate MentionsSensitive(path: string) {
    exists i :: 0 <= i < |SensitiveParts| && Contains(path, SensitiveParts[i])
  }

  /** An empty path stops at one error; otherwise the three rules fire independently. */
  function ValidateFilePath(path: string): (r: Validation<PathError>)
    ensures r.valid <==> r.errors == []
    ensures path == [] ==> r.errors == [PathEmpty]
    ensures path != [] ==> PathEmpty !in r.errors
    ensures path != [] ==> (UnsupportedFormat in r.errors <==> !HasImageExtension(path))
    ensures path != [] ==> (Traversal in r.errors <==> Contains(path, ".."))
    ensures path != [] ==> (SensitiveLocation in r.errors <==> MentionsSensitive(path))
  {
    if path == [] then Report([PathEmpty])
    else
      Report(WhenEach(!HasImageExtension(path), UnsupportedFormat,
        Contains(path, ".."), Traversal,
        MentionsSensitive(path), SensitiveLocation))
  }

  /** Three independent rules, each contributing its own error when it fires. */
  function WhenEach<E(==)>(a: bool, x: E, b: bool, y: E, c: bool, z: E): (r: seq<E>)
    requires x != y && y != z && x != z
    ensures r == [] <==> !a && !b && !c
    ensures x in r <==> a
    ensures y in r <==> b
    ensures z in r <==> c
    ensures forall e :: e in r ==> e == x || e == y || e == z
  {
    When(a, x) + When(b, y) + When(c, z)
  }

  // ---------------------------------------------------------------------------
  // Request validation

  /** The elements of `xs` that satisfy `keep`, in order. */
  function Filter<E(!new)>(xs: seq<E>, keep: E -> bool): (r: seq<E>)
    ensures forall e :: e in r <==> e in xs && keep(e)
    decreases |xs|
  {
    if xs == [] then []
    else if keep(xs[0]) then [xs[0]] + Filter(xs[1..], keep)
    else Filter(xs[1..], keep)
  }

  /** `xs` lists its elements in strictly increasing `rank`. */
  predicate RankedBy<E>(xs: seq<E>, rank: E -> int) {
    forall i, j :: 0 <= i < j < |xs| ==> rank(xs[i]) < rank(xs[j])
  }

  /** Filtering keeps the order of the list, so a ranked list stays ranked. */
  lemma {:induction false} FilterKeepsOrder<E(!new)>(xs: seq<E>, keep: E -> bool, rank: E -> int)
    requires RankedBy(xs, rank)
    ensures RankedBy(Filter(xs, keep), rank)
    decreases |xs|
  {
    if xs != [] {
      var t := xs[1..];
      FilterKeepsOrder(t, keep, rank);
      var rest := Filter(t, keep);
      forall e | e in rest
        ensures rank(xs[0]) < rank(e)
      {
        var m :| 0 <= m < |t| && t[m] == e;
        assert xs[m + 1] == e;
      }
      if keep(xs[0]) {
        RankedCons(xs[0], rest, rank);
      }
    }
  }

  /** Putting an element ranked below all of a ranked list in front keeps it ranked. */
  lemma RankedCons<E>(x: E, rest: seq<E>, rank: E -> int)
    requires RankedBy(rest, rank) && forall e :: e in rest ==> rank(x) < rank(e)
    ensures RankedBy([x] + rest, rank)
  {
    var r := [x] + rest;
    forall i, j | 0 <= i < j < |r|
      ensures rank(r[i]) < rank(r[j])
    {
      assert r[j] == rest[j - 1] && rest[j - 1] in rest;
      if i > 0 {
        assert r[i] == rest[i - 1];
      }
    }
  }

  /** Every error a request can draw, in the order the validators test the rules. */
  const PublishRules: seq<Error> := [
    TitleRequired, ContentRequired, AppIdRequired, AppSecretRequired,
    BadPath(PathEmpty), BadPath(UnsupportedFormat), BadPath(Traversal), BadPath(SensitiveLocation),
    TitleTooLong, AuthorTooLong, ContentTooLong,
    AppIdPrefix, AppIdLength, AppSecretLength, PreviewNeedsOpenId, OpenIdFormat]

  const StatusRules: seq<Error> := [
    MsgIdRequired, AppIdRequired, AppSecretRequired, MsgIdFormat, AppIdPrefix, AppIdLength, AppSecretLength]

  /** The position of a publish error in `PublishRules` (16 for the others). */
  function PublishRank(e: Error): int {
    match e
    case TitleRequired => 0
    case ContentRequired => 1
    case AppIdRequired => 2
    case AppSecretRequired => 3
    case BadPath(pe) =>
      (match pe
       case PathEmpty => 4
       case UnsupportedFormat => 5
       case Traversal => 6
       case SensitiveLocation => 7)
    case TitleTooLong => 8
    case AuthorTooLong => 9
    case ContentTooLong => 10
    case AppIdPrefix => 11
    case AppIdLength => 12
    case AppSecretLength => 13
    case PreviewNeedsOpenId => 14
    case OpenIdFormat => 15
    case _ => 16
  }

  /** The position of a status error in `StatusRules` (7 for the others). */
  function StatusRank(e: Error): int {
    match e
    case MsgIdRequired => 0
    case AppIdRequired => 1
    case AppSecretRequired => 2
    case MsgIdFormat => 3
    case AppIdPrefix => 4
    case AppIdLength => 5
    case AppSecretLength => 6
    case _ => 7
  }

  lemma PublishRankIsPosition()
    ensures forall i :: 0 <= i < |PublishRules| ==> PublishRank(PublishRules[i]) == i
  {
  }

  lemma StatusRankIsPosition()
    ensures forall i :: 0 <= i < |StatusRules| ==> StatusRank(StatusRules[i]) == i
  {
  }

  /** The two AppID rules, shared by both validators. */
  predicate AppIdFires(appId: Option<string>, e: Error) {
    match e
    case AppIdPrefix => Given(appId) && !StartsWith(appId.value, "wx")
    case AppIdLength => Given(appId) && Utf16Length(appId.value) != 18
    case _ => false
  }

  /** Whether the rule reporting `e` fires on a publish request. */
  predicate PublishFires(p: Params, e: Error) {
    match e
    case TitleRequired => Missing(p.title)
    case ContentRequired => Missing(p.content)
    case AppIdRequired => Missing(p.appId)
    case AppSecretRequired => Missing(p.appSecret)
    case BadPath(pe) => Given(p.coverImagePath) && pe in ValidateFilePath(p.coverImagePath.value).errors
    case TitleTooLong => Given(p.title) && Utf16Length(p.title.value) > 64
    case AuthorTooLong => Given(p.author) && Utf16Length(p.author.value) > 8
    case ContentTooLong => Given(p.content) && Utf16Length(p.content.value) > 200000
    case AppIdPrefix => AppIdFires(p.appId, e)
    case AppIdLength => AppIdFires(p.appId, e)
    case AppSecretLength => Given(p.appSecret) && Utf16Length(p.appSecret.value) != 32
    case PreviewNeedsOpenId => p.previewMode == Some(true) && !Given(p.previewOpenId)
    case OpenIdFormat => Given(p.previewOpenId) && !IsValidOpenId(p.previewOpenId.value)
    case _ => false
  }

  /** Whether the rule reporting `e` fires on a status request. */
  predicate StatusFires(p: Params, e: Error) {
    match e
    case MsgIdRequired => Missing(p.msgId)
    case AppIdRequired => Missing(p.appId)
    case AppSecretRequired => Missing(p.appSecret)
    case MsgIdFormat => Given(p.msgId) && !IsValidMsgId(p.msgId.value)
    case AppIdPrefix => AppIdFires(p.appId, e)
    case AppIdLength => AppIdFires(p.appId, e)
    case AppSecretLength => Given(p.appSecret) && Utf16Length(p.appSecret.value) != 32
    case _ => false
  }

  lemma PublishRulesComplete(p: Params, e: Error)
    requires PublishFires(p, e)
    ensures e in PublishRules
  {
  }

  lemma StatusRulesComplete(p: Params, e: Error)
    requires StatusFires(p, e)
    ensures e in StatusRules
  {
  }

  /**
    `validatePublishParams`: an error is reported exactly when its rule fires,
    once, and the errors come in the order the rules are tested.
   */
  function ValidatePublishParams(p: Params): (r: Validation<Error>)
    ensures r.valid <==> r.errors == []
    ensures forall e :: e in r.errors <==> PublishFires(p, e)
    ensures RankedBy(r.errors, PublishRank)
  {
    var errs := Filter(PublishRules, e => PublishFires(p, e));
    PublishRankIsPosition();
    FilterKeepsOrder(PublishRules, e => PublishFires(p, e), PublishRank);
    assert forall e :: PublishFires(p, e) ==> e in errs by {
      forall e | PublishFires(p, e) ensures e in errs {
        PublishRulesComplete(p, e);
      }
    }
    Report(errs)
  }

  /**
    `validateStatusParams`: an error is reported exactly when its rule fires,
    once, and the errors come in the order the rules are tested.
   */
  function ValidateStatusParams(p: Params): (r: Validation<Error>)
    ensures r.valid <==> r.errors == []
    ensures forall e :: e in r.errors <==> StatusFires(p, e)
    ensures RankedBy(r.errors, StatusRank)
  {
    var errs := Filter(StatusRules, e => StatusFires(p, e));
    StatusRankIsPosition();
    FilterKeepsOrder(StatusRules, e => StatusFires(p, e), StatusRank);
    assert forall e :: StatusFires(p, e) ==> e in errs by {
      forall e | StatusFires(p, e) ensures e in errs {
        StatusRulesComplete(p, e);
      }
    }
    Report(errs)
  }

  /** A publish request that no rule objects to, stated field by field. */
  predicate PublishAcceptable(p: Params) {
    && p.title.Some? && !AllSpace(p.title.value) && Utf16Length(p.title.value) <= 64
    && p.content.Some? && !AllSpace(p.content.value) && Utf16Length(p.content.value) <= 200000
    && (p.author.None? || Utf16Length(p.author.value) <= 8)
    && p.appId.Some? && StartsWith(p.appId.value, "wx") && Utf16Length(p.appId.value) == 18
    && p.appSecret.Some? && !AllSpace(p.appSecret.value) && Utf16Length(p.appSecret.value) == 32
    && (Given(p.coverImagePath) ==> ValidateFilePath(p.coverImagePath.value).valid)
    && (Given(p.previewOpenId) ==> IsValidOpenId(p.previewOpenId.value))
    && (p.previewMode == Some(true) ==> Given(p.previewOpenId))
  }

  /** A status request that no rule objects to. */
  predicate StatusAcceptable(p: Params) {
    && p.msgId.Some? && IsValidMsgId(p.msgId.value)
    && p.appId.Some? && StartsWith(p.appId.value, "wx") && Utf16Length(p.appId.value) == 18
    && p.appSecret.Some? && !AllSpace(p.appSecret.value) && Utf16Length(p.appSecret.value) == 32
  }

  /** An AppID with the "wx" prefix is never blank. */
  lemma WxIsNotBlank(appId: Option<string>)
    ensures appId.Some? && StartsWith(appId.value, "wx") ==> !AllSpace(appId.value)
  {
    if appId.Some? && StartsWith(appId.value, "wx") {
      assert appId.value[0] == appId.value[..2][0];
    }
  }

  /** A well-formed msgId is never blank. */
  lemma DigitsAreNotBlank(msgId: Option<string>)
    ensures msgId.Some? && IsValidMsgId(msgId.value) ==> !AllSpace(msgId.value)
  {
    if msgId.Some? && IsValidMsgId(msgId.value) {
      assert IsDigit(msgId.value[0]);
    }
  }

  /** A well-formed msgId draws neither msgId error. */
  lemma MsgIdWellFormed(p: Params)
    requires p.msgId.Some? && IsValidMsgId(p.msgId.value)
    ensures MsgIdRequired !in ValidateStatusParams(p).errors
    ensures MsgIdFormat !in ValidateStatusParams(p).errors
  {
    DigitsAreNotBlank(p.msgId);
    assert !StatusFires(p, MsgIdRequired);
    assert !StatusFires(p, MsgIdFormat);
  }

  /** A rule that fires names a condition the acceptable requests exclude. */
  lemma FiredRuleRejects(p: Params, e: Error)
    requires PublishFires(p, e)
    ensures !PublishAcceptable(p)
  {
    match e {
      case BadPath(pe) =>
        assert pe in ValidateFilePath(p.coverImagePath.value).errors;
      case TitleRequired =>
      case ContentRequired =>
      case AppIdRequired =>
        WxIsNotBlank(p.appId);
      case AppSecretRequired =>
      case TitleTooLong =>
      case AuthorTooLong =>
      case ContentTooLong =>
      case AppIdPrefix =>
      case AppIdLength =>
      case AppSecretLength =>
      case PreviewNeedsOpenId =>
      case OpenIdFormat =>
    }
  }

  /** One rule firing is enough to make the request invalid. */
  lemma FiredRuleInvalidates(p: Params, e: Error)
    requires PublishFires(p, e)
    ensures !ValidatePublishParams(p).valid
  {
    assert e in ValidatePublishParams(p).errors;
  }

  /** An unacceptable request draws at least one error. */
  lemma RejectedDrawsError(p: Params)
    requires !PublishAcceptable(p)
    ensures !ValidatePublishParams(p).valid
  {
    var e :=
      if Missing(p.title) then TitleRequired
      else if Utf16Length(p.title.value) > 64 then TitleTooLong
      else if Missing(p.content) then ContentRequired
      else if Utf16Length(p.content.value) > 200000 then ContentTooLong
      else if p.author.Some? && Utf16Length(p.author.value) > 8 then AuthorTooLong
      else if Missing(p.appId) then AppIdRequired
      else if !StartsWith(p.appId.value, "wx") then AppIdPrefix
      else if Utf16Length(p.appId.value) != 18 then AppIdLength
      else if Missing(p.appSecret) then AppSecretRequired
      else if Utf16Length(p.appSecret.value) != 32 then AppSecretLength
      else if Given(p.coverImagePath) && !ValidateFilePath(p.coverImagePath.value).valid then
        BadPath(ValidateFilePath(p.coverImagePath.value).errors[0])
      else if Given(p.previewOpenId) && !IsValidOpenId(p.previewOpenId.value) then OpenIdFormat
      else PreviewNeedsOpenId;
    assert PublishFires(p, e);
    FiredRuleInvalidates(p, e);
  }

  /** The publish validator accepts exactly the acceptable requests. */
  lemma PublishValidIff(p: Params)
    ensures ValidatePublishParams(p).valid <==> PublishAcceptable(p)
  {
    var es := ValidatePublishParams(p).errors;
    if PublishAcceptable(p) && es != [] {
      FiredRuleRejects(p, es[0]);
    } else if !PublishAcceptable(p) {
      RejectedDrawsError(p);
    }
  }

  lemma StatusFiredRuleRejects(p: Params, e: Error)
    requires StatusFires(p, e)
    ensures !StatusAcceptable(p)
  {
    match e {
      case MsgIdRequired =>
        DigitsAreNotBlank(p.msgId);
      case AppIdRequired =>
        WxIsNotBlank(p.appId);
      case AppSecretRequired =>
      case MsgIdFormat =>
      case AppIdPrefix =>
      case AppIdLength =>
      case AppSecretLength =>
    }
  }

  lemma StatusFiredRuleInvalidates(p: Params, e: Error)
    requires StatusFires(p, e)
    ensures !ValidateStatusParams(p).valid
  {
    assert e in ValidateStatusParams(p).errors;
  }

  /** An unacceptable status request draws at least one error. */
  lemma StatusRejectedDrawsError(p: Params)
    requires !StatusAcceptable(p)
    ensures !ValidateStatusParams(p).valid
  {
    var e :=
      if Missing(p.msgId) then MsgIdRequired
      else if !IsValidMsgId(p.msgId.value) then MsgIdFormat
      else if Missing(p.appId) then AppIdRequired
      else if !StartsWith(p.appId.value, "wx") then AppIdPrefix
      else if Utf16Length(p.appId.value) != 18 then AppIdLength
      else if Missing(p.appSecret) then AppSecretRequired
      else AppSecretLength;
    assert StatusFires(p, e);
    StatusFiredRuleInvalidates(p, e);
  }

  /** The status validator accepts exactly the acceptable requests. */
  lemma StatusValidIff(p: Params)
    ensures ValidateStatusParams(p).valid <==> StatusAcceptable(p)
  {
    var es := ValidateStatusParams(p).errors;
    if StatusAcceptable(p) && es != [] {
      StatusFiredRuleRejects(p, es[0]);
    } else if !StatusAcceptable(p) {
      StatusRejectedDrawsError(p);
    }
  }

  /** A well-formed AppID draws neither AppID error. */
  lemma AppIdWellFormed(p: Params)
    requires p.appId.Some? && StartsWith(p.appId.value, "wx") && Utf16Length(p.appId.value) == 18
    ensures AppIdPrefix !in ValidatePublishParams(p).errors
    ensures AppIdLength !in ValidatePublishParams(p).errors
  {
    assert !PublishFires(p, AppIdPrefix);
    assert !PublishFires(p, AppIdLength);
  }

  /** An AppID of 18 code units without the "wx" prefix draws only the prefix error. */
  lemma AppIdWrongPrefix(p: Params)
    requires p.appId.Some? && !StartsWith(p.appId.value, "wx") && Utf16Length(p.appId.value) == 18
    ensures AppIdPrefix in ValidatePublishParams(p).errors
    ensures AppIdLength !in ValidatePublishParams(p).errors
  {
    assert PublishFires(p, AppIdPrefix);
    assert !PublishFires(p, AppIdLength);
  }

  /** A "wx" AppID one code unit short draws only the length error. */
  lemma AppIdTooShort(p: Params)
    requires p.appId.Some? && StartsWith(p.appId.value, "wx") && Utf16Length(p.appId.value) == 17
    ensures AppIdPrefix !in ValidatePublishParams(p).errors
    ensures AppIdLength in ValidatePublishParams(p).errors
  {
    assert !PublishFires(p, AppIdPrefix);
    assert PublishFires(p, AppIdLength);
  }

  /** Upper-case extensions are accepted: the suffix test is case-insensitive. */
  lemma UpperCaseExtension(stem: string)
    ensures HasImageExtension(stem + ".PNG")
  {
    var path := stem + ".PNG";
    var low := AsciiLower(path);
    assert low[|low| - 4..] == ".png";
    assert EndsWith(low, SupportedExtensions[2]);
  }

  // ---------------------------------------------------------------------------
  // The "none" cover sentinel

  /** The cover sentinel the publish tool documents for "no cover". */
  const NoCover := "none"

  lemma NoneHasNoExtension()
    ensures !HasImageExtension(NoCover)
  {
    assert AsciiLower(NoCover) == NoCover;
    forall i | 0 <= i < |SupportedExtensions|
      ensures !EndsWith(NoCover, SupportedExtensions[i])
    {
      var e := SupportedExtensions[i];
      assert e != [] && e[0] == '.';
      NotEndsWithAt(NoCover, e);
    }
  }

  /** A text cannot end with a suffix whose first character is missing at that position. */
  lemma NotEndsWithAt(s: string, p: string)
    requires p != [] && p[0] !in s
    ensures !EndsWith(s, p)
  {
    if |p| <= |s| {
      assert s[|s| - |p|..][0] == s[|s| - |p|];
    }
  }

  /** As written, the sentinel is checked as a file path and always rejected. */
  lemma NoneSentinelRejected(p: Params)
    requires p.coverImagePath == Some(NoCover)
    ensures BadPath(UnsupportedFormat) in ValidatePublishParams(p).errors
    ensures !ValidatePublishParams(p).valid
  {
    NoneHasNoExtension();
    assert PublishFires(p, BadPath(UnsupportedFormat));
  }

  /**
    The publish validation with the sentinel honoured: "none" draws no path
    error, and every other rule is unchanged.
   */
  function ValidatePublishParamsAllowingNone(p: Params): (r: Validation<Error>)
    ensures r.valid <==> r.errors == []
    ensures forall e :: e in r.errors <==> PublishFires(p, e) && !(e.BadPath? && p.coverImagePath == Some(NoCover))
  {
    if p.coverImagePath == Some(NoCover) then
      var q := p.(coverImagePath := None);
      SentinelOnlyPath(p, q);
      ValidatePublishParams(q)
    else ValidatePublishParams(p)
  }

  /** Dropping the cover path changes no rule but the path rules. */
  lemma SentinelOnlyPath(p: Params, q: Params)
    requires q == p.(coverImagePath := None)
    ensures forall e: Error :: !e.BadPath? ==> (PublishFires(q, e) <==> PublishFires(p, e))
    ensures forall e: Error :: e.BadPath? ==> !PublishFires(q, e)
  {
  }

  /** With the sentinel honoured, "none" is accepted whenever the rest of the request is. */
  lemma NoneSentinelAccepted(p: Params)
    requires p.coverImagePath == Some(NoCover)
    requires PublishAcceptable(p.(coverImagePath := None))
    ensures ValidatePublishParamsAllowingNone(p).valid
  {
    PublishValidIff(p.(coverImagePath := None));
  }

  /** The request the corrected validation judges: the sentinel read as "no cover". */
  function WithoutSentinel(p: Params): Params {
    if p.coverImagePath == Some(NoCover) then p.(coverImagePath := None) else p
  }

  /** The corrected validation accepts exactly what is acceptable once the sentinel is dropped. */
  lemma AllowingNoneValidIff(p: Params)
    ensures ValidatePublishParamsAllowingNone(p).valid <==> PublishAcceptable(WithoutSentinel(p))
  {
    PublishValidIff(WithoutSentinel(p));
  }

  // ---------------------------------------------------------------------------
  // sanitizeParams

  /** A string field after sanitising: kept, trimmed, only when truthy. */
  function SanitizeField(o: Option<string>): (r: Option<string>)
    ensures r.Some? <==> Given(o)
    ensures r.Some? ==> r.value == Trim(o.value)
  {
    if Given(o) then Some(Trim(o.value)) else None
  }

  /** `sanitizeParams` */
  function SanitizeParams(p: Params): (r: Params)
    ensures r.previewMode == p.previewMode
    ensures r.title == SanitizeField(p.title) && r.content == SanitizeField(p.content)
    ensures r.author == SanitizeField(p.author) && r.appId == SanitizeField(p.appId)
    ensures r.appSecret == SanitizeField(p.appSecret) && r.coverImagePath == SanitizeField(p.coverImagePath)
    ensures r.previewOpenId == SanitizeField(p.previewOpenId) && r.msgId == SanitizeField(p.msgId)
  {
    Params(SanitizeField(p.title), SanitizeField(p.content), SanitizeField(p.author),
      SanitizeField(p.appId), SanitizeField(p.appSecret), SanitizeField(p.coverImagePath),
      p.previewMode, SanitizeField(p.previewOpenId), SanitizeField(p.msgId))
  }

  /** A truthy field made of whitespace only: sanitising keeps it, as "". */
  predicate Blank(o: Option<string>) {
    Given(o) && AllSpace(o.value)
  }

  /** Sanitising a field twice equals sanitising it once unless it is blank. */
  lemma SanitizeFieldTwice(o: Option<string>)
    ensures SanitizeField(SanitizeField(o)) == SanitizeField(o) <==> !Blank(o)
  {
    if Given(o) {
      TrimIdempotent(o.value);
    }
  }

  /**
    Sanitising is idempotent exactly on requests without blank fields: a
    whitespace-only value becomes "" on the first pass and is dropped on the second.
   */
  lemma SanitizeIdempotentIff(p: Params)
    ensures SanitizeParams(SanitizeParams(p)) == SanitizeParams(p) <==>
      !Blank(p.title) && !Blank(p.content) && !Blank(p.author) && !Blank(p.appId)
      && !Blank(p.appSecret) && !Blank(p.coverImagePath) && !Blank(p.previewOpenId) && !Blank(p.msgId)
  {
    SanitizeFieldTwice(p.title);
    SanitizeFieldTwice(p.content);
    SanitizeFieldTwice(p.author);
    SanitizeFieldTwice(p.appId);
    SanitizeFieldTwice(p.appSecret);
    SanitizeFieldTwice(p.coverImagePath);
    SanitizeFieldTwice(p.previewOpenId);
    SanitizeFieldTwice(p.msgId);
  }

  // ---------------------------------------------------------------------------
  // parseNaturalLanguage

  predicate IsLabelColon(c: char) {
    c == ':' || c == '：'
  }

  /** `key` followed by a half- or full-width colon occurs at `i`. */
  predicate KeyAt(s: string, key: string, i: nat) {
    OccursAt(s, key, i) && i + |key| < |s| && IsLabelColon(s[i + |key|])
  }

  predicate SpacesBetween(s: string, j: nat, q: nat)
    requires j <= q <= |s|
  {
    forall x :: j <= x < q ==> IsSpace(s[x])
  }

  /**
    `key[：:]\s*` matches at `i` and leaves the group `([^stops]+)` a first
    character at `q`.
   */
  predicate GroupCanStart(s: string, key: string, stops: set<char>, i: nat, q: nat) {
    && KeyAt(s, key, i)
    && i + |key| + 1 <= q < |s|
    && SpacesBetween(s, i + |key| + 1, q)
    && s[q] !in stops
  }

  /** The first index at or after `k` that holds a character of `stops`, or `|s|`. */
  function RunEnd(s: string, k: nat, stops: set<char>): (e: nat)
    requires k <= |s|
    ensures k <= e <= |s|
    ensures forall x :: k <= x < e ==> s[x] !in stops
    ensures e == |s| || s[e] in stops
    decreases |s| - k
  {
    if k == |s| || s[k] in stops then k else RunEnd(s, k + 1, stops)
  }

  /**
    Where the group starts when the pattern is tried at `i`: the greedy `\s*`
    gives back whitespace until the group can start, so it is the LARGEST
    admissible start.
   */
  function GroupStart(s: string, key: string, stops: set<char>, i: nat): (r: Option<nat>)
    ensures r.Some? ==> GroupCanStart(s, key, stops, i, r.value)
    ensures r.Some? ==> forall q :: r.value < q && GroupCanStart(s, key, stops, i, q) ==> false
    ensures r.None? ==> forall q :: !GroupCanStart(s, key, stops, i, q)
  {
    if !KeyAt(s, key, i) then None
    else
      var j := i + |key| + 1;
      var w := SkipSpaces(s, j);
      var r := GreedySpacesThen(s, j, 0, c => c !in stops);
      assert r == LastAccepted(s, j, w, c => c !in stops);
      assert w < |s| ==> !IsSpace(s[w]);
      r
  }

  /** The pattern matches when tried at `a` and at no start from `i` up to `a`. */
  predicate LeftmostFrom(s: string, key: string, stops: set<char>, i: nat, a: nat) {
    && i <= a
    && GroupStart(s, key, stops, a).Some?
    && forall b :: i <= b < a ==> GroupStart(s, key, stops, b).None?
  }

  /** The group captured when the pattern is tried at `a`: as many non-stop characters as there are. */
  function GroupAt(s: string, key: string, stops: set<char>, a: nat): (g: string)
    requires GroupStart(s, key, stops, a).Some?
    ensures g != [] && forall x :: 0 <= x < |g| ==> g[x] !in stops
  {
    var q := GroupStart(s, key, stops, a).value;
    s[q..RunEnd(s, q, stops)]
  }

  /** Where the regex's leftmost match at or after `i` is tried, if it matches at all. */
  function LeftmostMatch(s: string, key: string, stops: set<char>, i: nat): (r: Option<nat>)
    requires i <= |s|
    ensures r.Some? ==> LeftmostFrom(s, key, stops, i, r.value)
    ensures r.None? ==> forall a, q :: i <= a ==> !GroupCanStart(s, key, stops, a, q)
    decreases |s| - i
  {
    if GroupStart(s, key, stops, i).Some? then Some(i)
    else if i == |s| then
      assert forall a, q :: i <= a ==> !GroupCanStart(s, key, stops, a, q);
      None
    else LeftmostMatch(s, key, stops, i + 1)
  }

  /** Two leftmost matches from the same start are the same match. */
  lemma LeftmostUnique(s: string, key: string, stops: set<char>, i: nat, a: nat, b: nat)
    requires LeftmostFrom(s, key, stops, i, a) && LeftmostFrom(s, key, stops, i, b)
    ensures a == b
  {
  }

  /** `userRequest.match(/key[：:]\s*([^stops]+)/)`: the captured group of the leftmost match, if any. */
  function Capture(s: string, key: string, stops: set<char>): (r: Option<string>)
    ensures r.Some? <==> exists a, q :: GroupCanStart(s, key, stops, a, q)
    ensures r.Some? ==> exists a :: LeftmostFrom(s, key, stops, 0, a) && r.value == GroupAt(s, key, stops, a)
    ensures r.Some? ==> r.value != [] && forall x :: 0 <= x < |r.value| ==> r.value[x] !in stops
  {
    match LeftmostMatch(s, key, stops, 0)
    case Some(a) =>
      assert GroupCanStart(s, key, stops, a, GroupStart(s, key, stops, a).value);
      Some(GroupAt(s, key, stops, a))
    case None => None
  }

  /**
    `o` is what the label reads from `s`: present exactly when the pattern matches
    somewhere, and then the group of the leftmost match, trimmed.
   */
  ghost predicate ReadsLabel(s: string, key: string, stops: set<char>, o: Option<string>) {
    && (o.Some? <==> exists a, q :: GroupCanStart(s, key, stops, a, q))
    && (o.Some? ==> exists a :: LeftmostFrom(s, key, stops, 0, a) && o.value == Trim(GroupAt(s, key, stops, a)))
  }

  /** One labelled field of `parseNaturalLanguage`: the leftmost capture, trimmed. */
  function LabelField(s: string, key: string, stops: set<char>): (r: Option<string>)
    ensures ReadsLabel(s, key, stops, r)
    ensures r.Some? ==> Trim(r.value) == r.value && forall c :: c in r.value ==> c !in stops
  {
    var c := Capture(s, key, stops);
    TrimmedCapture(c);
    if c.Some? then Some(Trim(c.value)) else None
  }

  const TitleStops: set<char> := {'\n', ',', '，'}

  /** `[\s\S]+` excludes nothing. */
  const ContentStops: set<char> := {}

  /** `parseNaturalLanguage`: the labelled title, author and content, and the preview keywords. */
  function ParseNaturalLanguage(request: string): (r: Params)
    ensures ReadsLabel(request, "标题", TitleStops, r.title)
    ensures ReadsLabel(request, "作者", TitleStops, r.author)
    ensures ReadsLabel(request, "内容", ContentStops, r.content)
    ensures r.title.Some? ==> Trim(r.title.value) == r.title.value && forall c :: c in r.title.value ==> c !in TitleStops
    ensures r.author.Some? ==> Trim(r.author.value) == r.author.value && forall c :: c in r.author.value ==> c !in TitleStops
    ensures r.content.Some? ==> Trim(r.content.value) == r.content.value
    ensures r.previewMode.Some? <==> Contains(request, "预览") || Contains(request, "试看")
    ensures r.previewMode != Some(false)
    ensures r.appId.None? && r.appSecret.None? && r.coverImagePath.None? && r.previewOpenId.None? && r.msgId.None?
  {
    NoParams.(
      title := LabelField(request, "标题", TitleStops),
      author := LabelField(request, "作者", TitleStops),
      previewMode := if Contains(request, "预览") || Contains(request, "试看") then Some(true) else None,
      content := LabelField(request, "内容", ContentStops))
  }

  /** The leftmost match is unique, so it fixes the field. */
  lemma LabelFieldAt(s: string, key: string, stops: set<char>, a: nat)
    requires LeftmostFrom(s, key, stops, 0, a)
    ensures LabelField(s, key, stops) == Some(Trim(GroupAt(s, key, stops, a)))
  {
    var m := LeftmostMatch(s, key, stops, 0);
    assert m.Some?;
    LeftmostUnique(s, key, stops, 0, a, m.value);
  }

  /** No match can be tried before `p` when the key's first character does not occur there. */
  lemma NoKeyBefore(s: string, key: string, stops: set<char>, p: nat)
    requires key != [] && p <= |s|
    requires forall b :: 0 <= b < p ==> s[b] != key[0]
    ensures forall b :: 0 <= b < p ==> GroupStart(s, key, stops, b).None?
  {
  }

  /** Right after the label and its colon, a non-space character starts the group. */
  lemma GroupStartsAfterColon(s: string, key: string, stops: set<char>, a: nat)
    requires KeyAt(s, key, a)
    requires a + |key| + 1 < |s| && !IsSpace(s[a + |key| + 1]) && s[a + |key| + 1] !in stops
    ensures GroupStart(s, key, stops, a) == Some(a + |key| + 1)
  {
    var q := a + |key| + 1;
    assert GroupCanStart(s, key, stops, a, q);
    assert GroupStart(s, key, stops, a).value == q;
  }

  /** The first stop character after `k` is at `e`. */
  lemma RunEndAt(s: string, k: nat, stops: set<char>, e: nat)
    requires k <= e <= |s|
    requires forall x :: k <= x < e ==> s[x] !in stops
    requires e == |s| || s[e] in stops
    ensures RunEnd(s, k, stops) == e
  {
    var r := RunEnd(s, k, stops);
    assert !(r < e) && !(e < r);
  }

  /** A label at `a` whose value `v` runs to a stop character or the end is read back as `v`. */
  lemma LabelledValue(s: string, key: string, stops: set<char>, a: nat, v: string)
    requires KeyAt(s, key, a) && forall b :: 0 <= b < a ==> GroupStart(s, key, stops, b).None?
    requires v != [] && !IsSpace(v[0]) && !IsSpace(v[|v| - 1]) && forall x :: x in v ==> x !in stops
    requires OccursAt(s, v, a + |key| + 1)
    requires var e := a + |key| + 1 + |v|; e == |s| || s[e] in stops
    ensures LabelField(s, key, stops) == Some(v)
  {
    var q := a + |key| + 1;
    assert s[q] == v[0] && v[0] in v;
    GroupStartsAfterColon(s, key, stops, a);
    assert forall x :: q <= x < q + |v| ==> s[x] == v[x - q];
    RunEndAt(s, q, stops, q + |v|);
    assert GroupAt(s, key, stops, a) == v;
    LabelFieldAt(s, key, stops, a);
    TrimOfTrimmed(v);
  }

  /** A label whose first character never occurs is not found. */
  lemma UnlabelledField(s: string, key: string, stops: set<char>)
    requires key != [] && key[0] !in s
    ensures LabelField(s, key, stops).None?
  {
    NoKeyBefore(s, key, stops, |s|);
  }

  /**
    A request written as a title line and a content label parses back to that
    title and content, with no author.
   */
  lemma ParseLabelledRequest(t: string, c: string)
    requires t != [] && !IsSpace(t[0]) && !IsSpace(t[|t| - 1])
    requires forall x :: x in t ==> x !in TitleStops && x != '内' && x != '作'
    requires c != [] && !IsSpace(c[0]) && !IsSpace(c[|c| - 1]) && '作' !in c
    ensures var r := ParseNaturalLanguage("标题：" + t + "\n内容：" + c);
      r.title == Some(t) && r.content == Some(c) && r.author.None?
  {
    var head := "标题：" + t + "\n";
    var s := head + ("内容：" + c);
    assert s == "标题：" + t + "\n内容：" + c;
    assert s[..|head|] == head;
    LabelledTitle(s, t);
    LabelChars(t, c);
    LabelledContent(s, head, c);
    UnlabelledField(s, "作者", TitleStops);
  }

  /** The labels themselves hold neither `内` before the content label nor `作` anywhere. */
  lemma LabelChars(t: string, c: string)
    requires '内' !in t && '作' !in t && '作' !in c
    ensures '内' !in "标题：" + t + "\n"
    ensures '作' !in "标题：" + t + "\n" + ("内容：" + c)
  {
  }

  lemma LabelledTitle(s: string, t: string)
    requires StartsWith(s, "标题：" + t + "\n")
    requires t != [] && !IsSpace(t[0]) && !IsSpace(t[|t| - 1]) && forall x :: x in t ==> x !in TitleStops
    ensures LabelField(s, "标题", TitleStops) == Some(t)
  {
    var h := "标题：" + t + "\n";
    assert forall x :: 0 <= x < |h| ==> s[x] == h[x];
    assert s[0..2] == "标题" && s[2] == '：';
    assert s[3..3 + |t|] == t && s[3 + |t|] == '\n';
    LabelledValue(s, "标题", TitleStops, 0, t);
  }

  lemma LabelledContent(s: string, head: string, c: string)
    requires s == head + ("内容：" + c) && '内' !in head
    requires c != [] && !IsSpace(c[0]) && !IsSpace(c[|c| - 1])
    ensures LabelField(s, "内容", ContentStops) == Some(c)
  {
    var p := |head|;
    assert forall b :: 0 <= b < p ==> s[b] == head[b];
    NoKeyBefore(s, "内容", ContentStops, p);
    assert s[p..p + 2] == "内容" && s[p + 2] == '：';
    assert s[p + 3..] == c;
    LabelledValue(s, "内容", ContentStops, p, c);
  }

  /** Trimming a capture keeps its characters and cannot be repeated. */
  lemma TrimmedCapture(o: Option<string>)
    ensures o.Some? ==> Trim(Trim(o.value)) == Trim(o.value)
    ensures o.Some? ==> forall c :: c in Trim(o.value) ==> c in o.value
  {
    if o.Some? {
      TrimIdempotent(o.value);
      TrimChars(o.value);
    }
  }
}
