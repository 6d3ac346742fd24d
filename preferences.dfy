/** Android `SharedPreferences`: named files of typed key-value pairs, edited in place.
    The app stores its session in the file "SesionUsuario". */
module Preferences {
  import opened Wrappers

  datatype PrefValue = StringPref(s: string) | IntPref(i: int)

  type PrefFile = map<string, PrefValue>

  /** Every preference file of the app, by name. */
  type Store = map<string, PrefFile>

  /** The session file written at login and registration and read by every screen. */
  const SESION_USUARIO: string := "SesionUsuario"
  const KEY_EMAIL: string := "email"
  const KEY_USER_ID: string := "userId"
  const KEY_NOMBRE: string := "nombreUsuario"

  /** The default `getInt("userId", -1)` falls back to: no user is signed in. */
  const NO_USER: int := -1

  /** A file that was never written reads as empty. */
  function FileOf(st: Store, name: string): PrefFile {
    if name in st then st[name] else map[]
  }

  function WithString(st: Store, name: string, key: string, v: string): Store {
    st[name := FileOf(st, name)[key := StringPref(v)]]
  }

  function WithInt(st: Store, name: string, key: string, v: int): Store {
    st[name := FileOf(st, name)[key := IntPref(v)]]
  }

  function Without(st: Store, name: string, key: string): Store {
    st[name := FileOf(st, name) - {key}]
  }

  /** `getString(key, null)`: the stored string, or null when the key holds none. */
  function StringAt(st: Store, name: string, key: string): (r: Option<string>)
    ensures r.Some? <==> key in FileOf(st, name) && FileOf(st, name)[key].StringPref?
  {
    var f := FileOf(st, name);
    if key in f && f[key].StringPref? then Some(f[key].s) else None
  }

  /** `getInt(key, default)`: the stored integer, or `default` when the key holds none. */
  function IntAt(st: Store, name: string, key: string, default: int): (r: int)
    ensures key !in FileOf(st, name) ==> r == default
  {
    var f := FileOf(st, name);
    if key in f && f[key].IntPref? then f[key].i else default
  }

  /** A value written is the value read back. */
  lemma ReadBack(st: Store, name: string, key: string, s: string, i: int, default: int)
    ensures StringAt(WithString(st, name, key, s), name, key) == Some(s)
    ensures IntAt(WithInt(st, name, key, i), name, key, default) == i
    ensures StringAt(Without(st, name, key), name, key) == None
    ensures IntAt(Without(st, name, key), name, key, default) == default
  {
  }

  /** A write or a removal touches only its own key of its own file. */
  lemma OtherKeysUnchanged(st: Store, name: string, key: string, name': string, key': string,
                           s: string, i: int, default: int)
    requires name != name' || key != key'
    ensures StringAt(WithString(st, name, key, s), name', key') == StringAt(st, name', key')
    ensures StringAt(WithInt(st, name, key, i), name', key') == StringAt(st, name', key')
    ensures StringAt(Without(st, name, key), name', key') == StringAt(st, name', key')
    ensures IntAt(WithString(st, name, key, s), name', key', default) == IntAt(st, name', key', default)
    ensures IntAt(WithInt(st, name, key, i), name', key', default) == IntAt(st, name', key', default)
    ensures IntAt(Without(st, name, key), name', key', default) == IntAt(st, name', key', default)
  {
  }

  /** The app's preference storage; each editor call changes it in place. */
  class SharedPreferences {
    var files: Store

    constructor ()
      ensures files == map[]
    {
      files := map[];
    }

    method PutString(name: string, key: string, v: string)
      modifies this
      ensures files == WithString(old(files), name, key, v)
    {
      files := WithString(files, name, key, v);
    }

    method PutInt(name: string, key: string, v: int)
      modifies this
      ensures files == WithInt(old(files), name, key, v)
    {
      files := WithInt(files, name, key, v);
    }

    method Remove(name: string, key: string)
      modifies this
      ensures files == Without(old(files), name, key)
    {
      files := Without(files, name, key);
    }

    function GetString(name: string, key: string): (r: Option<string>)
      reads this
      ensures r.Some? <==> key in FileOf(files, name) && FileOf(files, name)[key].StringPref?
      ensures r.Some? ==> FileOf(files, name)[key] == StringPref(r.value)
    {
      StringAt(files, name, key)
    }

    function GetInt(name: string, key: string, default: int): (r: int)
      reads this
      ensures key !in FileOf(files, name) ==> r == default
      ensures key in FileOf(files, name) && FileOf(files, name)[key].IntPref? ==> r == FileOf(files, name)[key].i
    {
      IntAt(files, name, key, default)
    }
  }
}
