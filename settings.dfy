/** Configuration of the pastebin: the debug switch read from the
    environment and the size limits the store, the reaper and the image
    sanitizer share. */
module Settings {
  import opened Wrappers

  /** Total size of the data directory above which the reaper wipes it (1 GiB). */
  const MaxSizeDataDir: nat := 1073741824

  /** Largest request body the server accepts (20 MiB). */
  const MaxContentUpload: nat := 20971520

  /** Bounding box (long side, short side) beyond which images are shrunk. */
  const MaxImageBoundingBox: (nat, nat) := (3840, 2160)

  /** The Python values `bool_env` can be handed: what `os.environ.get`
      returns (a string, or the default), or anything else a caller passes. */
  datatype PyValue = PyBool(b: bool) | PyStr(s: string) | PyInt(i: int) | PyNone

  /** `str.lower` on one character. Only ASCII capitals are folded: no other
      character lowers to one of the letters `bool_env` compares against. */
  function Lower(c: char): char {
    if 'A' <= c <= 'Z' then (c as int + 32) as char else c
  }

  function LowerStr(s: string): (r: string)
    ensures |r| == |s|
    ensures forall i :: 0 <= i < |s| ==> r[i] == Lower(s[i])
  {
    if s == [] then [] else [Lower(s[0])] + LowerStr(s[1..])
  }

  /** `val is True or (isinstance(val, str) and (val.lower() == 'true' or val == '1'))` */
  predicate BoolEnv(v: PyValue)
    ensures BoolEnv(v) ==> v == PyBool(true) || v.PyStr?
    ensures v == PyStr("1") || v == PyStr("true") ==> BoolEnv(v)
  {
    v == PyBool(true) || (v.PyStr? && (LowerStr(v.s) == "true" || v.s == "1"))
  }

  /** `c` is the letter `l` in either case. */
  predicate EitherCase(c: char, l: char)
    requires 'a' <= l <= 'z'
  {
    c == l || c as int == l as int - 32
  }

  /** The debug flag: `bool_env(os.environ.get("PASTE_DEBUG", False))`. */
  predicate Debug(env: Option<string>)
    ensures Debug(env) ==> env.Some?
  {
    BoolEnv(if env.None? then PyBool(false) else PyStr(env.value))
  }

  lemma LowerIsLetter(c: char, l: char)
    requires 'a' <= l <= 'z'
    ensures Lower(c) == l <==> EitherCase(c, l)
  {
  }

  /** A string is true exactly when it is `1` or some casing of `true`. */
  lemma BoolEnvString(s: string)
    ensures BoolEnv(PyStr(s)) <==>
            s == "1" ||
            (|s| == 4 && EitherCase(s[0], 't') && EitherCase(s[1], 'r')
                      && EitherCase(s[2], 'u') && EitherCase(s[3], 'e'))
  {
    var l := LowerStr(s);
    if |s| == 4 {
      LowerIsLetter(s[0], 't');
      LowerIsLetter(s[1], 'r');
      LowerIsLetter(s[2], 'u');
      LowerIsLetter(s[3], 'e');
      if l == "true" {
        assert l[0] == 't' && l[1] == 'r' && l[2] == 'u' && l[3] == 'e';
      }
      if EitherCase(s[0], 't') && EitherCase(s[1], 'r') && EitherCase(s[2], 'u') && EitherCase(s[3], 'e') {
        assert l == "true";
      }
    } else {
      assert |l| != 4;
    }
  }

  /** Apart from `True`, no value that is not a string switches the flag on;
      in particular neither `False`, `None` nor the integer 1 does. */
  lemma BoolEnvNonString(v: PyValue)
    requires !v.PyStr?
    ensures BoolEnv(v) <==> v == PyBool(true)
  {
  }

  /** With `PASTE_DEBUG` unset, the default `False` keeps debugging off; set,
      it follows the string rule. */
  lemma DebugDefault(env: Option<string>)
    ensures env.None? ==> !Debug(env)
    ensures env.Some? ==> (Debug(env) <==> LowerStr(env.value) == "true" || env.value == "1")
  {
  }
}
