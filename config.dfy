/** The configuration the access-control layer reads: fixed constants, and
    the values that come from the environment at start-up as a `Settings`
    record. */
module Config {

  /** Values read from the environment when the process starts. */
  datatype Settings = Settings(
    telegramUserId: int,        // the one bot identity allowed to act
    dashboardUsername: string,
    dashboardPassword: string,
    dashboardSecretKey: string, // key of the session signer
    sessionTimeout: int         // seconds a session stays valid
  )

  /** Default of `DASHBOARD_SESSION_TIMEOUT`: 24 hours. */
  const DefaultSessionTimeout := 86400

  /** Bot commands: at most 30 per user in any 60 seconds. */
  const RateLimitCommands := 30
  const RateLimitWindow := 60

  /** Dashboard logins: at most 5 attempts per IP in any 900 seconds. */
  const DashboardMaxLoginAttempts := 5
  const DashboardLoginWindow := 900

  /** Which bot commands ask for confirmation before they act. */
  const ConfirmCommands: map<string, bool> := map[
    "shutdown" := true,
    "restart" := true,
    "sleep" := true,
    "lock" := false,
    "screenshot" := false,
    "volume" := false,
    "mute" := false,
    "unmute" := false,
    "brightness" := false,
    "status" := false
  ]
}
