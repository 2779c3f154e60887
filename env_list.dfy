/**
  The environment-assignment validator `fix_envlist`: checks `NAME=VALUE`
  entries in order and yields each one back, or stops at the first bad one.
  Python's `str.isprintable` is the parameter `printable`, applied to each
  character of the value.
 */
module EnvList {
  import opened Wrappers
  import opened PyStr

  datatype EnvError =
    | InvalidFormat(entry: string)   // the entry has no `=`
    | InvalidName(name: string)      // the name has a character outside [A-Za-z0-9_]
    | InvalidValue(value: string)    // the value is not printable

  predicate IsNameChar(c: char) {
    ('a' <= c <= 'z') || ('A' <= c <= 'Z') || ('0' <= c <= '9') || c == '_'
  }

  /** `all(c in ... for c in name)`: true of the empty name too. */
  predicate ValidName(name: string) {
    forall i | 0 <= i < |name| :: IsNameChar(name[i])
  }

  /** `value.isprintable()`: true of the empty value too. */
  predicate Printable(value: string, printable: char -> bool) {
    forall i | 0 <= i < |value| :: printable(value[i])
  }

  /**
    One step of the loop: split `arg` at its first `=`, check the name and
    then the value, and format `name=value` back.
   */
  function CheckEntry(arg: string, printable: char -> bool): (r: Result<string, EnvError>)
    ensures r.Ok? ==> r.value == arg
  {
    var eq := Find(arg, "=");
    if eq < 0 then Err(InvalidFormat(arg))
    else
      var name, value := arg[..eq], arg[eq + 1..];
      assert arg == name + "=" + value by {
        assert arg[eq..eq + 1] == "=";
        assert arg == arg[..eq] + arg[eq..eq + 1] + arg[eq + 1..];
      }
      if !ValidName(name) then Err(InvalidName(name))
      else if !Printable(value, printable) then Err(InvalidValue(value))
      else Ok(name + "=" + value)
  }

  /**
    `fix_envlist`: walks the entries in order. On success the output is the
    whole input, entry for entry; otherwise it is the valid prefix checked
    before the first bad entry, and the error is that entry's.
   */
  method FixEnvList(envlist: seq<string>, printable: char -> bool)
    returns (out: seq<string>, err: Option<EnvError>)
    ensures |out| <= |envlist| && out == envlist[..|out|]
    ensures forall k | 0 <= k < |out| :: CheckEntry(envlist[k], printable) == Ok(out[k])
    ensures err.None? <==> |out| == |envlist|
    ensures err.Some? ==> |out| < |envlist| && CheckEntry(envlist[|out|], printable) == Err(err.value)
  {
    out, err := [], None;
    var i := 0;
    while i < |envlist|
      invariant i <= |envlist| && out == envlist[..i]
      invariant forall k | 0 <= k < i :: CheckEntry(envlist[k], printable) == Ok(out[k])
    {
      var checked := CheckEntry(envlist[i], printable);
      if checked.Err? {
        err := Some(checked.error);
        return;
      }
      out := out + [checked.value];
      i := i + 1;
    }
  }

  /** An entry is rejected as malformed exactly when it contains no `=`. */
  lemma NoEqualsIsInvalidFormat(arg: string, printable: char -> bool)
    ensures CheckEntry(arg, printable) == Err(InvalidFormat(arg)) <==> '=' !in arg
  {
    CharContains(arg, '=');
  }

  /**
    The split is at the FIRST `=`: for a name without `=`, the verdict on
    `name=value` depends on the name and then the value, and the value may
    itself contain `=`.
   */
  lemma SplitAtFirstEquals(name: string, value: string, printable: char -> bool)
    requires '=' !in name
    ensures CheckEntry(name + "=" + value, printable)
         == if !ValidName(name) then Err(InvalidName(name))
            else if !Printable(value, printable) then Err(InvalidValue(value))
            else Ok(name + "=" + value)
  {
    var arg := name + "=" + value;
    assert OccursAt(arg, "=", |name|) by {
      assert arg[|name|..|name| + 1] == "=";
    }
    forall i | 0 <= i < |name| ensures !OccursAt(arg, "=", i) {
      assert arg[i..i + 1] == [name[i]];
    }
    var eq := Find(arg, "=");
    assert eq == |name|;
    assert arg[..eq] == name;
    assert arg[eq + 1..] == value;
  }

  /** An empty name passes the name check: only the value is then examined. */
  lemma EmptyNameAccepted(value: string, printable: char -> bool)
    requires Printable(value, printable)
    ensures CheckEntry("=" + value, printable) == Ok("=" + value)
  {
    SplitAtFirstEquals("", value, printable);
    assert "" + "=" + value == "=" + value;
  }
}
