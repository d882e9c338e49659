/**
 * `UserPreferencesManager`: a DataStore of seven typed keys. Readers supply
 * defaults for unset keys; setters write or remove one key each.
 */
module UserPreferences {
  import opened Wrappers
  import Text

  /** The preference keys. */
  datatype Key =
    | StoragePermissionGranted
    | LastOpenedPdfUri
    | AppTheme
    | UserName
    | UserAvatarUri
    | StorageTreeUri
    | HapticsEnabled

  /** The name each key has in the `user_preferences` store. */
  function KeyName(k: Key): string {
    match k
    case StoragePermissionGranted => "storage_permission_granted"
    case LastOpenedPdfUri => "last_opened_pdf_uri"
    case AppTheme => "app_theme"
    case UserName => "user_name"
    case UserAvatarUri => "user_avatar_uri"
    case StorageTreeUri => "storage_tree_uri"
    case HapticsEnabled => "haptics_enabled"
  }

  /** A stored value: the store has boolean keys and string keys. */
  datatype Value = Flag(b: bool) | Str(s: string)

  type Prefs = map<Key, Value>

  /** The keys declared with `booleanPreferencesKey`. */
  predicate IsFlagKey(k: Key) {
    k == StoragePermissionGranted || k == HapticsEnabled
  }

  /** Every key holds a value of its declared type. */
  predicate WellTyped(p: Prefs) {
    forall k :: k in p ==> (IsFlagKey(k) <==> p[k].Flag?)
  }

  /** `p` and `q` agree on every key other than `k`, set or unset. */
  predicate AgreeExcept(p: Prefs, q: Prefs, k: Key) {
    forall k' :: k' != k ==> (k' in p <==> k' in q) && (k' in p ==> p[k'] == q[k'])
  }

  // ---------------------------------------------------------------- readers

  function ReadFlag(p: Prefs, k: Key, default: bool): bool {
    if k in p && p[k].Flag? then p[k].b else default
  }

  function ReadString(p: Prefs, k: Key): Option<string> {
    if k in p && p[k].Str? then Some(p[k].s) else None
  }

  /** `storagePermissionGranted`, false when unset. */
  function StoragePermissionGrantedOf(p: Prefs): (b: bool)
    ensures StoragePermissionGranted !in p ==> !b
  {
    ReadFlag(p, StoragePermissionGranted, false)
  }

  /** `hapticsEnabled`, true when unset. */
  function HapticsEnabledOf(p: Prefs): (b: bool)
    ensures HapticsEnabled !in p ==> b
  {
    ReadFlag(p, HapticsEnabled, true)
  }

  /** `appTheme`, `"system"` when unset. */
  function AppThemeOf(p: Prefs): (t: string)
    ensures AppTheme !in p ==> t == "system"
  {
    ReadString(p, AppTheme).GetOr("system")
  }

  /** The string-valued readers: `null` when unset. */
  function StringOf(p: Prefs, k: Key): (r: Option<string>)
    requires !IsFlagKey(k) && k != AppTheme
    ensures k !in p ==> r == None
    ensures WellTyped(p) && k in p ==> r == Some(p[k].s)
  {
    ReadString(p, k)
  }

  // ---------------------------------------------------------------- setters

  /** `updateStoragePermissionStatus`. */
  function WithStoragePermission(p: Prefs, granted: bool): (q: Prefs)
    ensures StoragePermissionGrantedOf(q) == granted
    ensures AgreeExcept(p, q, StoragePermissionGranted)
    ensures WellTyped(p) ==> WellTyped(q)
  {
    p[StoragePermissionGranted := Flag(granted)]
  }

  /** `setHapticsEnabled`. */
  function WithHaptics(p: Prefs, enabled: bool): (q: Prefs)
    ensures HapticsEnabledOf(q) == enabled
    ensures AgreeExcept(p, q, HapticsEnabled)
    ensures WellTyped(p) ==> WellTyped(q)
  {
    p[HapticsEnabled := Flag(enabled)]
  }

  /** `setAppTheme`: the theme is stored as given. */
  function WithAppTheme(p: Prefs, theme: string): (q: Prefs)
    ensures AppThemeOf(q) == theme
    ensures AgreeExcept(p, q, AppTheme)
    ensures WellTyped(p) ==> WellTyped(q)
  {
    p[AppTheme := Str(theme)]
  }

  /** The write the string setters share: `None` removes the key, a value is stored as given. */
  function WithStringValue(p: Prefs, k: Key, v: Option<string>): (q: Prefs)
    requires !IsFlagKey(k) && k != AppTheme
    ensures StringOf(q, k) == v
    ensures v.None? ==> k !in q
    ensures AgreeExcept(p, q, k)
    ensures WellTyped(p) ==> WellTyped(q)
  {
    if v.Some? then p[k := Str(v.value)] else p - {k}
  }

  /** `saveLastOpenedPdfUri`: `null` removes the key, any other value is stored verbatim. */
  function WithLastOpenedPdfUri(p: Prefs, uri: Option<string>): (q: Prefs)
    ensures StringOf(q, LastOpenedPdfUri) == uri
    ensures uri.None? ==> LastOpenedPdfUri !in q
    ensures AgreeExcept(p, q, LastOpenedPdfUri)
    ensures WellTyped(p) ==> WellTyped(q)
  {
    WithStringValue(p, LastOpenedPdfUri, uri)
  }

  /** `setUserName`: null or blank removes the key; otherwise the trimmed name is stored. */
  function WithUserName(p: Prefs, name: Option<string>): (q: Prefs)
    ensures Text.IsNullOrBlank(name) ==> UserName !in q
    ensures !Text.IsNullOrBlank(name) ==> StringOf(q, UserName) == Some(Text.Trim(name.value))
    ensures AgreeExcept(p, q, UserName)
    ensures WellTyped(p) ==> WellTyped(q)
  {
    WithStringValue(p, UserName, if Text.IsNullOrBlank(name) then None else Some(Text.Trim(name.value)))
  }

  /** The rule `setUserAvatarUri` and `setStorageTreeUri` share: null or blank removes, anything else is stored untrimmed. */
  function WithUriKey(p: Prefs, k: Key, uri: Option<string>): (q: Prefs)
    requires k == UserAvatarUri || k == StorageTreeUri
    ensures Text.IsNullOrBlank(uri) ==> k !in q
    ensures !Text.IsNullOrBlank(uri) ==> StringOf(q, k) == uri
    ensures AgreeExcept(p, q, k)
    ensures WellTyped(p) ==> WellTyped(q)
  {
    WithStringValue(p, k, if Text.IsNullOrBlank(uri) then None else uri)
  }

  // ---------------------------------------------------------------- properties

  /** Setting the user name twice with the same argument is setting it once. */
  lemma UserNameIdempotent(p: Prefs, name: Option<string>)
    ensures WithUserName(WithUserName(p, name), name) == WithUserName(p, name)
  {
  }

  /** Writing the same value under a key twice is writing it once. */
  lemma StoreTwice(p: Prefs, k: Key, v: Value)
    ensures p[k := v][k := v] == p[k := v]
  {
  }

  /** Removing a key twice is removing it once. */
  lemma RemoveTwice(p: Prefs, k: Key)
    ensures p - {k} - {k} == p - {k}
  {
  }

  /** The flag and theme setters, applied twice with the same argument, are applied once. */
  lemma FlagSettersIdempotent(p: Prefs, b: bool, theme: string)
    ensures WithStoragePermission(WithStoragePermission(p, b), b) == WithStoragePermission(p, b)
    ensures WithHaptics(WithHaptics(p, b), b) == WithHaptics(p, b)
    ensures WithAppTheme(WithAppTheme(p, theme), theme) == WithAppTheme(p, theme)
  {
    StoreTwice(p, StoragePermissionGranted, Flag(b));
    StoreTwice(p, HapticsEnabled, Flag(b));
    StoreTwice(p, AppTheme, Str(theme));
  }

  /** The shared string write, applied twice with the same value, is applied once. */
  lemma StringValueIdempotent(p: Prefs, k: Key, v: Option<string>)
    requires !IsFlagKey(k) && k != AppTheme
    ensures WithStringValue(WithStringValue(p, k, v), k, v) == WithStringValue(p, k, v)
  {
    if v.Some? {
      StoreTwice(p, k, Str(v.value));
    } else {
      RemoveTwice(p, k);
    }
  }

  /** The last-opened and uri setters, applied twice with the same argument, are applied once. */
  lemma UriSettersIdempotent(p: Prefs, uri: Option<string>, k: Key)
    requires k == UserAvatarUri || k == StorageTreeUri
    ensures WithLastOpenedPdfUri(WithLastOpenedPdfUri(p, uri), uri) == WithLastOpenedPdfUri(p, uri)
    ensures WithUriKey(WithUriKey(p, k, uri), k, uri) == WithUriKey(p, k, uri)
  {
    StringValueIdempotent(p, LastOpenedPdfUri, uri);
    StringValueIdempotent(p, k, if Text.IsNullOrBlank(uri) then None else uri);
  }

  /**
   * Saving back the user name as read stores the same thing again: what
   * `setUserName` stores is trimmed and not blank.
   */
  lemma {:induction false} UserNameReadBackStable(p: Prefs, name: Option<string>)
    ensures var q := WithUserName(p, name); WithUserName(q, StringOf(q, UserName)) == q
  {
    var q := WithUserName(p, name);
    if Text.IsNullOrBlank(name) {
      assert StringOf(q, UserName) == None;
      assert q - {UserName} == q;
    } else {
      var t := Text.Trim(name.value);
      Text.TrimmedIsStable(name.value);
      StoresTrimmed(p, t);
    }
  }

  /** Storing a name that is already trimmed and not blank under a key that already holds it changes nothing. */
  lemma StoresTrimmed(p: Prefs, t: string)
    requires !Text.IsNullOrBlank(Some(t)) && Text.Trim(t) == t
    ensures WithUserName(p[UserName := Str(t)], Some(t)) == p[UserName := Str(t)]
  {
    var q := p[UserName := Str(t)];
    assert WithUserName(q, Some(t)) == q[UserName := Str(Text.Trim(t))];
  }

  /** The trimmed user name never starts or ends with whitespace and is never blank. */
  lemma UserNameStoredTrimmed(p: Prefs, name: Option<string>)
    requires !Text.IsNullOrBlank(name)
    ensures var s := StringOf(WithUserName(p, name), UserName).value;
      !Text.IsBlank(s) && !Text.IsWhitespace(s[0]) && !Text.IsWhitespace(s[|s| - 1])
  {
    Text.TrimNotBlank(name.value);
    Text.TrimShape(name.value);
  }

  /** An avatar or tree uri is kept exactly, surrounding whitespace included. */
  lemma UriKeyUntrimmed(p: Prefs, k: Key, uri: string)
    requires k == UserAvatarUri || k == StorageTreeUri
    requires !Text.IsBlank(uri)
    ensures StringOf(WithUriKey(p, k, Some(uri)), k) == Some(uri)
  {
  }

  /** The user preferences store, updated in place by its setters. */
  class Store {
    var prefs: Prefs

    predicate Valid()
      reads this
    {
      WellTyped(prefs)
    }

    /** A fresh store with nothing set. */
    constructor()
      ensures Valid() && prefs == map[]
    {
      prefs := map[];
    }

    method UpdateStoragePermissionStatus(granted: bool)
      requires Valid()
      modifies this
      ensures Valid() && prefs == WithStoragePermission(old(prefs), granted)
    {
      prefs := WithStoragePermission(prefs, granted);
    }

    method SaveLastOpenedPdfUri(uri: Option<string>)
      requires Valid()
      modifies this
      ensures Valid() && prefs == WithLastOpenedPdfUri(old(prefs), uri)
    {
      prefs := WithLastOpenedPdfUri(prefs, uri);
    }

    method SetAppTheme(theme: string)
      requires Valid()
      modifies this
      ensures Valid() && prefs == WithAppTheme(old(prefs), theme)
    {
      prefs := WithAppTheme(prefs, theme);
    }

    method SetUserName(name: Option<string>)
      requires Valid()
      modifies this
      ensures Valid() && prefs == WithUserName(old(prefs), name)
    {
      prefs := WithUserName(prefs, name);
    }

    method SetUserAvatarUri(uri: Option<string>)
      requires Valid()
      modifies this
      ensures Valid() && prefs == WithUriKey(old(prefs), UserAvatarUri, uri)
    {
      prefs := WithUriKey(prefs, UserAvatarUri, uri);
    }

    method SetStorageTreeUri(uri: Option<string>)
      requires Valid()
      modifies this
      ensures Valid() && prefs == WithUriKey(old(prefs), StorageTreeUri, uri)
    {
      prefs := WithUriKey(prefs, StorageTreeUri, uri);
    }

    method SetHapticsEnabled(enabled: bool)
      requires Valid()
      modifies this
      ensures Valid() && prefs == WithHaptics(old(prefs), enabled)
    {
      prefs := WithHaptics(prefs, enabled);
    }
  }
}
