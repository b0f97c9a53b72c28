/**
 * backend/routes/settings.js: one `user_settings` row per user, created
 * with defaults by the first GET and changed column by column by PUT.
 * PUT only ever UPDATEs: it never creates the row.
 */
module Settings {
  import opened Common
  import opened Schema
  import opened AuthMiddleware

  /** A row of `user_settings` (the key, `user_id`, is the map's key). */
  datatype SettingsRow = SettingsRow(
    theme: string, notifications: bool, emailNotifications: bool, language: string, timezone: string, fontSize: string)

  /** The PUT body; None for a field the request leaves out. */
  datatype SettingsInput = SettingsInput(
    theme: Option<string>, notifications: Option<bool>, emailNotifications: Option<bool>,
    language: Option<string>, timezone: Option<string>, fontSize: Option<string>)

  const Themes: set<string> := {"light", "dark", "system"}
  const Languages: set<string> := {"en", "es", "fr", "de"}
  const Timezones: set<string> := {
    "UTC", "America/New_York", "America/Chicago", "America/Denver", "America/Los_Angeles",
    "Europe/London", "Europe/Paris", "Asia/Tokyo", "Africa/Casablanca"}
  const FontSizes: set<string> := {"small", "medium", "large"}

  /** The row GET / inserts (lines 16-23); the time zone is the server process's own. */
  function DefaultSettings(serverZone: string): (d: SettingsRow)
    ensures d.theme in Themes && d.language in Languages && d.fontSize in FontSizes
    ensures d.notifications && d.emailNotifications && d.timezone == serverZone
  {
    SettingsRow("light", true, true, "en", serverZone, "medium")
  }

  /** A row whose enumerated columns hold values PUT accepts; the time zone may also be a server's own. */
  predicate WellFormed(row: SettingsRow) {
    row.theme in Themes && row.language in Languages && row.fontSize in FontSizes
  }

  /** The validators of lines 54-64: every supplied value lies in its set. */
  predicate Accepted(p: SettingsInput) {
    && (p.theme.Some? ==> p.theme.value in Themes)
    && (p.language.Some? ==> p.language.value in Languages)
    && (p.timezone.Some? ==> p.timezone.value in Timezones)
    && (p.fontSize.Some? ==> p.fontSize.value in FontSizes)
  }

  /** The columns PUT can set. */
  datatype Column = ThemeCol | NotificationsCol | EmailNotificationsCol | LanguageCol | TimezoneCol | FontSizeCol

  /** The column's name in `user_settings`. */
  function ColumnName(c: Column): string {
    match c
    case ThemeCol => "theme"
    case NotificationsCol => "notifications"
    case EmailNotificationsCol => "email_notifications"
    case LanguageCol => "language"
    case TimezoneCol => "timezone"
    case FontSizeCol => "font_size"
  }

  /** One step of building `updateFields`: the column joins the list when its field is supplied. */
  function Appended(acc: seq<Column>, supplied: bool, col: Column): (r: seq<Column>)
    ensures |r| <= |acc| + 1
    ensures forall x :: x in r <==> x in acc || (supplied && x == col)
    ensures NoDup(acc) && col !in acc ==> NoDup(r)
  {
    if supplied then acc + [col] else acc
  }

  /** `updateFields` as lines 83-114 build it: one `column = ?` per supplied field, in this order. */
  function SetClause(p: SettingsInput): (cols: seq<Column>)
    ensures |cols| <= 6 && NoDup(cols)
    ensures (ThemeCol in cols <==> p.theme.Some?) && (NotificationsCol in cols <==> p.notifications.Some?)
    ensures (EmailNotificationsCol in cols <==> p.emailNotifications.Some?) && (LanguageCol in cols <==> p.language.Some?)
    ensures (TimezoneCol in cols <==> p.timezone.Some?) && (FontSizeCol in cols <==> p.fontSize.Some?)
  {
    var c1 := Appended([], p.theme.Some?, ThemeCol);
    var c2 := Appended(c1, p.notifications.Some?, NotificationsCol);
    var c3 := Appended(c2, p.emailNotifications.Some?, EmailNotificationsCol);
    var c4 := Appended(c3, p.language.Some?, LanguageCol);
    var c5 := Appended(c4, p.timezone.Some?, TimezoneCol);
    Appended(c5, p.fontSize.Some?, FontSizeCol)
  }

  predicate NothingSupplied(p: SettingsInput) {
    && p.theme.None? && p.notifications.None? && p.emailNotifications.None?
    && p.language.None? && p.timezone.None? && p.fontSize.None?
  }

  /** The "No fields to update" test (line 116) fires exactly when the body supplies no field. */
  lemma EmptySetClauseIffNothingSupplied(p: SettingsInput)
    ensures SetClause(p) == [] <==> NothingSupplied(p)
  {
    if !NothingSupplied(p) {
      assert |SetClause(p)| > 0;
    }
  }

  /** `UPDATE user_settings SET <SetClause> WHERE user_id = ?` on one row. */
  function Applied(row: SettingsRow, p: SettingsInput): SettingsRow {
    SettingsRow(
      p.theme.GetOr(row.theme), p.notifications.GetOr(row.notifications),
      p.emailNotifications.GetOr(row.emailNotifications), p.language.GetOr(row.language),
      p.timezone.GetOr(row.timezone), p.fontSize.GetOr(row.fontSize))
  }

  /** A supplied column takes the supplied value; every other column keeps its value. */
  lemma AppliedChangesExactlySupplied(row: SettingsRow, p: SettingsInput)
    ensures var r := Applied(row, p);
      && (r.theme == if p.theme.Some? then p.theme.value else row.theme)
      && (r.notifications == if p.notifications.Some? then p.notifications.value else row.notifications)
      && (r.emailNotifications == if p.emailNotifications.Some? then p.emailNotifications.value else row.emailNotifications)
      && (r.language == if p.language.Some? then p.language.value else row.language)
      && (r.timezone == if p.timezone.Some? then p.timezone.value else row.timezone)
      && (r.fontSize == if p.fontSize.Some? then p.fontSize.value else row.fontSize)
      && (NothingSupplied(p) ==> r == row)
  {
  }

  /** Sending the same PUT twice leaves the row as the first one did. */
  lemma AppliedIdempotent(row: SettingsRow, p: SettingsInput)
    ensures Applied(Applied(row, p), p) == Applied(row, p)
  {
  }

  /** An accepted PUT keeps a row's enumerated columns within their sets. */
  lemma AcceptedKeepsWellFormed(row: SettingsRow, p: SettingsInput)
    requires WellFormed(row) && Accepted(p)
    ensures WellFormed(Applied(row, p))
  {
  }

  class SettingsStore {
    var rows: map<UserId, SettingsRow>

    ghost predicate Valid()
      reads this
    {
      forall u :: u in rows ==> WellFormed(rows[u])
    }

    constructor ()
      ensures Valid() && rows == map[]
    {
      rows := map[];
    }

    /** GET / (lines 8-51): the stored row, or the default row inserted on this first read. */
    method Get(me: CurrentUser, serverZone: string) returns (r: Response<SettingsRow>)
      requires Valid()
      modifies this
      ensures Valid()
      ensures me.id in old(rows) ==> rows == old(rows) && r == Ok(rows[me.id])
      ensures me.id !in old(rows) ==> rows == old(rows)[me.id := DefaultSettings(serverZone)] && r == Ok(DefaultSettings(serverZone))
      ensures me.id in rows && r == Ok(rows[me.id])
    {
      if me.id !in rows {
        rows := rows[me.id := DefaultSettings(serverZone)];
      }
      r := Ok(rows[me.id]);
    }

    /**
     * PUT / (lines 53-140): 400 for a value outside its set or for a body
     * that supplies nothing; otherwise the supplied columns of the
     * caller's row change. Without a row nothing is written and the
     * answer carries no settings (None).
     */
    method Update(me: CurrentUser, p: SettingsInput) returns (r: Response<Option<SettingsRow>>)
      requires Valid()
      modifies this
      ensures Valid()
      ensures r.BadRequest? <==> !Accepted(p) || NothingSupplied(p)
      ensures r.BadRequest? || r.Ok?
      ensures r.BadRequest? ==> rows == old(rows)
      ensures r.Ok? && me.id in old(rows) ==>
        rows == old(rows)[me.id := Applied(old(rows)[me.id], p)] && r.value == Some(rows[me.id])
      ensures r.Ok? && me.id !in old(rows) ==> rows == old(rows) && r.value == None
    {
      if !Accepted(p) {
        return BadRequest;
      }
      var cols := SetClause(p);
      EmptySetClauseIffNothingSupplied(p);
      if cols == [] {
        return BadRequest;
      }
      if me.id in rows {
        AcceptedKeepsWellFormed(rows[me.id], p);
        rows := rows[me.id := Applied(rows[me.id], p)];
        r := Ok(Some(rows[me.id]));
      } else {
        r := Ok(None);
      }
    }
  }
}
