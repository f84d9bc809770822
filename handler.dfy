/** The decisions of the user handler's SignUp and Edit endpoints
    (webook/internal/web/user.go): which checks run, in which order, what
    is reported when one fails, and which user record is passed on to the
    service when all pass. */
module UserHandler {
  import opened Rules
  import opened Pipeline

  newtype int64 = x: int | -0x8000_0000_0000_0000 <= x < 0x8000_0000_0000_0000

  /** The user record handed to the service. Fields not set by a handler keep
      Go's zero value (0 or ""). */
  datatype User = User(
    id: int64,
    email: string,
    password: string,
    nickName: string,
    birthday: string,
    introduction: string,
    location: string,
    avatar: string)

  const ZeroUser := User(0, "", "", "", "", "", "", "")

  /** What the handler reaches after the last check: either the record it
      passes to the service, or the first failed check. */
  datatype Decision<R> = Forward(user: User) | Reject(reason: R)

  /** The verdict of a pipeline, with the record to forward when it passes. */
  function Decide<R>(checks: seq<Check<R>>, user: User): Decision<R> {
    match FirstFailure(checks)
    case Pass => Forward(user)
    case Fail(r) => Reject(r)
  }

  // ---------------------------------------------------------------------
  // SignUp

  datatype SignUpRequest = SignUpRequest(email: string, confirmPassword: string, password: string)

  datatype SignUpRejection = InvalidEmail | PasswordMismatch | WeakPassword

  /** The checks of SignUp, in the order the handler runs them. */
  function SignUpChecks(req: SignUpRequest): seq<Check<SignUpRejection>> {
    [ Check(IsEmail(req.email), InvalidEmail),
      Check(req.confirmPassword == req.password, PasswordMismatch),
      Check(IsStrongPassword(req.password), WeakPassword) ]
  }

  /** The record SignUp forwards: only the email and the password are set. */
  function SignUpUser(req: SignUpRequest): User {
    ZeroUser.(email := req.email, password := req.password)
  }

  /** SignUp's chain of guarded returns. */
  function SignUp(req: SignUpRequest): (d: Decision<SignUpRejection>)
    ensures d == Decide(SignUpChecks(req), SignUpUser(req))
  {
    if !IsEmail(req.email) then
      Reject(InvalidEmail)
    else if req.confirmPassword != req.password then
      FirstFailureAt(SignUpChecks(req), 1);
      Reject(PasswordMismatch)
    else if !IsStrongPassword(req.password) then
      FirstFailureAt(SignUpChecks(req), 2);
      Reject(WeakPassword)
    else
      Forward(SignUpUser(req))
  }

  /** SignUp forwards exactly when the email is well formed, the two
      passwords are equal and the password is strong; the record it forwards
      then holds a valid email and a strong password, and nothing else. */
  lemma SignUpForwardsIff(req: SignUpRequest)
    ensures SignUp(req).Forward? <==>
      IsEmail(req.email) && req.confirmPassword == req.password && IsStrongPassword(req.password)
    ensures SignUp(req).Forward? ==>
      && SignUp(req).user == SignUpUser(req)
      && IsEmail(SignUp(req).user.email)
      && IsStrongPassword(SignUp(req).user.password)
  {
  }

  /** A malformed email is what gets reported, whatever the passwords are:
      two requests with the same malformed email get the same answer. */
  lemma SignUpEmailCheckedFirst(a: SignUpRequest, b: SignUpRequest)
    requires !IsEmail(a.email) && a.email == b.email
    ensures SignUp(a) == SignUp(b) == Reject(InvalidEmail)
  {
  }

  /** With a good email, a confirmation mismatch is reported whatever the
      password's strength: the strength check is not reached. */
  lemma SignUpMismatchBeforeStrength(a: SignUpRequest, b: SignUpRequest)
    requires IsEmail(a.email) && a.confirmPassword != a.password
    requires IsEmail(b.email) && b.confirmPassword != b.password
    requires IsStrongPassword(a.password) && !IsStrongPassword(b.password)
    ensures SignUp(a) == SignUp(b) == Reject(PasswordMismatch)
  {
  }

  /** The rejection messages (user.go lines 90, 94 and 104). */
  function SignUpMessage(r: SignUpRejection): string {
    match r
    case InvalidEmail => "你的邮箱格式不对"
    case PasswordMismatch => "两次输入的密码不一致"
    case WeakPassword => "密码至少8位,包含数字、特殊字符"
  }

  /** What the service answered for the forwarded record. The service itself
      is not modelled: its answer is an input. */
  datatype SignUpServiceResult = Created | DuplicateEmail | OtherError

  /** The text SignUp writes back. */
  function SignUpReply(req: SignUpRequest, service: SignUpServiceResult): string {
    match SignUp(req)
    case Reject(r) => SignUpMessage(r)
    case Forward(_) =>
      match service
      case DuplicateEmail => "邮箱冲突"
      case OtherError => "系统异常"
      case Created => "注册成功"
  }

  /** Each reply names one outcome: the caller can tell every rejection,
      the two service failures and success apart. */
  lemma SignUpRepliesDistinct(a: SignUpRequest, sa: SignUpServiceResult, b: SignUpRequest, sb: SignUpServiceResult)
    requires SignUpReply(a, sa) == SignUpReply(b, sb)
    ensures SignUp(a).Reject? <==> SignUp(b).Reject?
    ensures SignUp(a).Reject? ==> SignUp(a).reason == SignUp(b).reason
    ensures SignUp(a).Forward? ==> sa == sb
  {
  }

  /** Success is reported exactly when every check passed and the service
      stored the record; when a check fails, the service's answer plays no
      part in the reply. */
  lemma SignUpReplySuccessIff(req: SignUpRequest, service: SignUpServiceResult, other: SignUpServiceResult)
    ensures SignUpReply(req, service) == "注册成功" <==>
      IsEmail(req.email) && req.confirmPassword == req.password && IsStrongPassword(req.password)
      && service == Created
    ensures SignUp(req).Reject? ==> SignUpReply(req, service) == SignUpReply(req, other)
  {
  }

  // ---------------------------------------------------------------------
  // Edit

  datatype EditRequest = EditRequest(
    nickName: string,
    birthday: string,
    introduction: string,
    location: string,
    avatar: string)

  datatype EditRejection = InvalidBirthday | InvalidNickname | InvalidIntroduction | InvalidLocation

  /** An optional field passes when it is empty or satisfies its rule. */
  predicate Optional(field: string, valid: bool) {
    field == "" || valid
  }

  /** The four fields Edit checks, in the order it checks them. */
  function EditFields(req: EditRequest): seq<string> {
    [req.birthday, req.nickName, req.introduction, req.location]
  }

  /** The checks of Edit, in the order the handler runs them. */
  function EditChecks(req: EditRequest): seq<Check<EditRejection>> {
    [ Check(Optional(req.birthday, IsBirthday(req.birthday)), InvalidBirthday),
      Check(Optional(req.nickName, IsNickname(req.nickName)), InvalidNickname),
      Check(Optional(req.introduction, IsIntroduction(req.introduction)), InvalidIntroduction),
      Check(Optional(req.location, IsLocation(req.location)), InvalidLocation) ]
  }

  /** The record Edit forwards: the session's user id and the four checked
      fields; the request's avatar is not copied. */
  function EditUser(req: EditRequest, sessionUserId: int64): User {
    ZeroUser.(
      id := sessionUserId,
      birthday := req.birthday,
      nickName := req.nickName,
      introduction := req.introduction,
      location := req.location)
  }

  /** Edit's chain of guarded returns; `sessionUserId` is the id read from
      the session. */
  function Edit(req: EditRequest, sessionUserId: int64): (d: Decision<EditRejection>)
    ensures d == Decide(EditChecks(req), EditUser(req, sessionUserId))
  {
    if req.birthday != "" && !IsBirthday(req.birthday) then
      Reject(InvalidBirthday)
    else if req.nickName != "" && !IsNickname(req.nickName) then
      FirstFailureAt(EditChecks(req), 1);
      Reject(InvalidNickname)
    else if req.introduction != "" && !IsIntroduction(req.introduction) then
      FirstFailureAt(EditChecks(req), 2);
      Reject(InvalidIntroduction)
    else if req.location != "" && !IsLocation(req.location) then
      FirstFailureAt(EditChecks(req), 3);
      Reject(InvalidLocation)
    else
      Forward(EditUser(req, sessionUserId))
  }

  /** Edit forwards exactly when each of the four fields is empty or valid,
      and then forwards the session id and the four fields, with no avatar,
      email or password. */
  lemma EditForwardsIff(req: EditRequest, sessionUserId: int64)
    ensures Edit(req, sessionUserId).Forward? <==>
      && Optional(req.birthday, IsBirthday(req.birthday))
      && Optional(req.nickName, IsNickname(req.nickName))
      && Optional(req.introduction, IsIntroduction(req.introduction))
      && Optional(req.location, IsLocation(req.location))
    ensures Edit(req, sessionUserId).Forward? ==>
      var u := Edit(req, sessionUserId).user;
      && u.id == sessionUserId
      && u.birthday == req.birthday && u.nickName == req.nickName
      && u.introduction == req.introduction && u.location == req.location
      && u.avatar == "" && u.email == "" && u.password == ""
  {
  }

  /** An edit request with every checked field empty passes, whatever its
      avatar, although no rule accepts the empty string. */
  lemma EditAllEmptyPasses(avatar: string, sessionUserId: int64)
    ensures Edit(EditRequest("", "", "", "", avatar), sessionUserId)
      == Forward(ZeroUser.(id := sessionUserId))
    ensures !IsBirthday("") && !IsNickname("") && !IsIntroduction("") && !IsLocation("")
  {
  }

  /** The field whose rejection is reported is the first invalid non-empty
      field in the order birthday, nickname, introduction, location. */
  lemma EditReportsFirstInvalid(req: EditRequest, sessionUserId: int64, k: int)
    requires FailsFirstAt(EditChecks(req), k)
    ensures Edit(req, sessionUserId) == Reject(EditChecks(req)[k].reason)
    ensures EditFields(req)[k] != ""
  {
  }

  /** Fields after the first invalid one are not inspected: two requests
      that agree on the fields up to and including the first invalid one get
      the same answer, whatever their later fields, avatars and session ids. */
  lemma EditIgnoresLaterFields(a: EditRequest, ida: int64, b: EditRequest, idb: int64, k: int)
    requires FailsFirstAt(EditChecks(a), k)
    requires EditFields(a)[..k + 1] == EditFields(b)[..k + 1]
    ensures Edit(a, ida) == Edit(b, idb)
  {
    var ca, cb := EditChecks(a), EditChecks(b);
    forall i | 0 <= i <= k ensures ca[i] == cb[i] {
      assert EditFields(a)[i] == EditFields(a)[..k + 1][i];
      assert EditFields(b)[i] == EditFields(b)[..k + 1][i];
    }
    assert ca[..k + 1] == cb[..k + 1];
    FirstFailureIgnoresRest(ca, cb, k);
  }

  /** The avatar is neither checked nor forwarded. */
  lemma EditIgnoresAvatar(req: EditRequest, avatar: string, sessionUserId: int64)
    ensures Edit(req.(avatar := avatar), sessionUserId) == Edit(req, sessionUserId)
  {
  }

  /** The rejection messages (user.go lines 237, 248, 259 and 270). */
  function EditMessage(r: EditRejection): string {
    match r
    case InvalidBirthday => "生日格式不对,必须以19或者20开头,正确例子1999-1-28"
    case InvalidNickname => "昵称格式不对,至少2个中文字符,并且不能超过10个中文字符"
    case InvalidIntroduction => "个人简介格式不对,至少10个中文字符,并且不能超过300个中文字符"
    case InvalidLocation => "地址格式不对,至少3个中文字符,并且不能超过60个中文字符"
  }

  /** Whether the service's update returned an error. */
  datatype EditServiceResult = Updated | UpdateFailed

  /** The text Edit writes back. */
  function EditReply(req: EditRequest, sessionUserId: int64, service: EditServiceResult): string {
    match Edit(req, sessionUserId)
    case Reject(r) => EditMessage(r)
    case Forward(_) =>
      match service
      case UpdateFailed => "编辑失败"
      case Updated => "编辑成功"
  }

  /** Success is reported exactly when every non-empty field is valid and the
      update went through; a rejected request's reply does not depend on the
      service. */
  lemma EditReplySuccessIff(req: EditRequest, sessionUserId: int64, service: EditServiceResult, other: EditServiceResult)
    ensures EditReply(req, sessionUserId, service) == "编辑成功" <==>
      && Optional(req.birthday, IsBirthday(req.birthday))
      && Optional(req.nickName, IsNickname(req.nickName))
      && Optional(req.introduction, IsIntroduction(req.introduction))
      && Optional(req.location, IsLocation(req.location))
      && service == Updated
    ensures Edit(req, sessionUserId).Reject? ==>
      EditReply(req, sessionUserId, service) == EditReply(req, sessionUserId, other)
  {
  }
}
