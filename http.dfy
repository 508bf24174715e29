/**
 * Things every HTTP handler of the feature-request board shares: the shape
 * of a JSON body field, the process environment the handlers consult, and
 * the error kinds a handler reports in its `{ success: false, error }` reply.
 */
module Http {
  import opened Wrappers

  /** A field of a JSON request body: absent (or null), a string, or any other JSON value. */
  datatype BodyValue = Missing | Str(s: string) | NonString

  /** The environment variables the handlers read; an unset variable is None. */
  datatype Env = Env(jwtSecret: Option<string>, cfPages: Option<string>, vercel: Option<string>, publicUrl: Option<string>)

  /** JavaScript truthiness of an optional environment string. */
  predicate IsSet(v: Option<string>) {
    v.Some? && v.value != ""
  }

  /** `v || fallback` on an optional string. */
  function EnvOr(v: Option<string>, fallback: string): (r: string)
    ensures IsSet(v) ==> r == v.value
    ensures !IsSet(v) ==> r == fallback
  {
    if IsSet(v) then v.value else fallback
  }

  const DevJwtSecret := "dev-secret-key-change-in-production"

  /** The signing secret: JWT_SECRET when set, the development key otherwise. */
  function JwtSecret(env: Env): string {
    EnvOr(env.jwtSecret, DevJwtSecret)
  }

  /** The error kinds the handlers report; each stands for one fixed message
      (the quota message also quotes the count and the limit). */
  datatype ApiError =
    | LoginRequired           // 请先登录
    | TitleRequired           // 标题不能为空
    | DescriptionRequired     // 描述不能为空
    | TitleTooLong            // 标题不能超过 200 个字符
    | DescriptionTooLong      // 描述不能超过 2000 个字符
    | RequestQuotaExceeded(count: nat, limit: nat)
    | EmailRequired           // 邮箱地址不能为空
    | EmailInvalid            // 邮箱格式不正确
    | EmailSendFailed         // 邮件发送失败，请稍后重试
    | TokenRequired           // 验证码不能为空
    | TokenInvalidOrExpired   // 验证码无效或已过期
    | StoreFailure            // an exception thrown by the store, caught by the handler
}
