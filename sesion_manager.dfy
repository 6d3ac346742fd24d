/** `SesionManager`: saves, reads and clears one email in its own preference file,
    "sesion_pref". No other part of the app reads or writes that file. */
module SesionManager {
  import opened Wrappers
  import P = Preferences

  const PREF_NAME: string := "sesion_pref"
  const KEY_EMAIL: string := "email"

  /** The email a store holds for the session: the string under "email" in
      "sesion_pref", absent when there is none. */
  function EmailIn(st: P.Store): Option<string> {
    P.StringAt(st, PREF_NAME, KEY_EMAIL)
  }

  /** `guardarSesion(email)`. */
  method GuardarSesion(prefs: P.SharedPreferences, email: string)
    modifies prefs
    ensures prefs.files == P.WithString(old(prefs.files), PREF_NAME, KEY_EMAIL, email)
  {
    prefs.PutString(PREF_NAME, KEY_EMAIL, email);
  }

  /** `obtenerEmail()`: the saved email, or null. */
  function ObtenerEmail(prefs: P.SharedPreferences): (r: Option<string>)
    reads prefs
    ensures r.Some? ==> KEY_EMAIL in P.FileOf(prefs.files, PREF_NAME) &&
                        P.FileOf(prefs.files, PREF_NAME)[KEY_EMAIL] == P.StringPref(r.value)
    ensures KEY_EMAIL !in P.FileOf(prefs.files, PREF_NAME) ==> r.None?
    ensures r == EmailIn(prefs.files)
  {
    prefs.GetString(PREF_NAME, KEY_EMAIL)
  }

  /** `cerrarSesion()`. */
  method CerrarSesion(prefs: P.SharedPreferences)
    modifies prefs
    ensures prefs.files == P.Without(old(prefs.files), PREF_NAME, KEY_EMAIL)
  {
    prefs.Remove(PREF_NAME, KEY_EMAIL);
  }

  /** Saving then reading gives the saved email; a later save overwrites an earlier one;
      after clearing there is none. */
  lemma SaveReadClear(st: P.Store, e: string, e': string)
    ensures EmailIn(P.WithString(st, PREF_NAME, KEY_EMAIL, e)) == Some(e)
    ensures EmailIn(P.WithString(P.WithString(st, PREF_NAME, KEY_EMAIL, e), PREF_NAME, KEY_EMAIL, e')) == Some(e')
    ensures EmailIn(P.Without(st, PREF_NAME, KEY_EMAIL)) == None
  {
    P.ReadBack(st, PREF_NAME, KEY_EMAIL, e, 0, 0);
    P.ReadBack(P.WithString(st, PREF_NAME, KEY_EMAIL, e), PREF_NAME, KEY_EMAIL, e', 0, 0);
  }

  /** The session the login and registration screens keep in "SesionUsuario" is invisible
      here: no write to that file changes what `obtenerEmail` returns. */
  lemma SessionFilesAreSeparate(st: P.Store, key: string, s: string, i: int)
    ensures EmailIn(P.WithString(st, P.SESION_USUARIO, key, s)) == EmailIn(st)
    ensures EmailIn(P.WithInt(st, P.SESION_USUARIO, key, i)) == EmailIn(st)
    ensures EmailIn(P.Without(st, P.SESION_USUARIO, key)) == EmailIn(st)
  {
    P.OtherKeysUnchanged(st, P.SESION_USUARIO, key, PREF_NAME, KEY_EMAIL, s, i, 0);
  }
}
