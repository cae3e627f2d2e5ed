/**
 * Who is notified, and whether the scheduled jobs run at all: the gating read from the
 * `settings/notifications` document and the `NOTIFICATION_EMAILS` environment variable.
 *
 * The environment variable is a parameter: None when it is unset, Some(text) otherwise.
 */
module Notify {
  import opened Wrappers
  import opened Text
  import opened Records

  /**
   * The server's recipients, `NOTIFICATION_EMAILS ? NOTIFICATION_EMAILS.split(',') : []`:
   * an empty variable is falsy and gives no recipient.
   */
  function ServerRecipients(env: Option<string>): (rs: seq<string>)
    ensures rs == [] <==> env.None? || env.value == ""
    ensures env.Some? && env.value != "" ==> Join(rs, ",") == env.value
  {
    if env.None? || env.value == "" then []
    else
      JoinSplit(env.value, ',');
      Split(env.value, ',')
  }

  /**
   * The jobs' recipients: the settings list when it is non-empty, otherwise
   * `NOTIFICATION_EMAILS?.split(',') || []`. An empty but set variable splits into [""],
   * which is a non-empty list.
   */
  function JobRecipients(settings: Option<NotificationSettings>, env: Option<string>): (rs: seq<string>)
    ensures settings.Some? && settings.value.notificationEmails != [] ==> rs == settings.value.notificationEmails
    ensures rs == [] <==> (settings.None? || settings.value.notificationEmails == []) && env.None?
    ensures (settings.None? || settings.value.notificationEmails == []) && env.Some? ==>
              Join(rs, ",") == env.value
  {
    var listed := if settings.Some? then settings.value.notificationEmails else [];
    if |listed| > 0 then listed
    else if env.None? then []
    else
      JoinSplit(env.value, ',');
      Split(env.value, ',')
  }

  /** The two readings agree except on an empty variable, which only the jobs count as a recipient. */
  lemma RecipientsDisagreeOnlyOnEmpty(env: Option<string>)
    ensures env != Some("") ==> JobRecipients(None, env) == ServerRecipients(env)
    ensures JobRecipients(None, Some("")) == [""] && ServerRecipients(Some("")) == []
  {
  }

  /** `settings.enableExpiryAlerts`, where a missing settings document means enabled. */
  predicate ExpiryAlertsEnabled(settings: Option<NotificationSettings>) {
    settings.None? || settings.value.enableExpiryAlerts
  }

  /** `settings.enableWeeklySummary`, where a missing settings document means enabled. */
  predicate WeeklySummaryEnabled(settings: Option<NotificationSettings>) {
    settings.None? || settings.value.enableWeeklySummary
  }

  /** `settings.expiryWarningDays || 30`. */
  function WarningDays(settings: Option<NotificationSettings>): (days: int)
    ensures days != 0
    ensures settings.None? ==> days == 30
    ensures settings.Some? && settings.value.expiryWarningDays == 0 ==> days == 30
    ensures settings.Some? && settings.value.expiryWarningDays != 0 ==> days == settings.value.expiryWarningDays
  {
    if settings.None? || settings.value.expiryWarningDays == 0 then 30 else settings.value.expiryWarningDays
  }
}
