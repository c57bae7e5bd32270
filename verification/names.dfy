/** The string helpers used when generating ActionScript bindings. */
module Names {

  /** An ASCII letter or digit. */
  predicate IsAsciiAlnum(c: char) {
    ('A' <= c <= 'Z') || ('a' <= c <= 'z') || ('0' <= c <= '9')
  }

  /** `PathAsASVarName`: an identifier made from a path by turning every rune
      that is not an ASCII letter or digit into `_`. */
  function PathAsASVarName(path: string): (name: string)
    ensures |name| == |path|
    ensures forall i :: 0 <= i < |path| && IsAsciiAlnum(path[i]) ==> name[i] == path[i]
    ensures forall i :: 0 <= i < |path| && !IsAsciiAlnum(path[i]) ==> name[i] == '_'
    ensures forall c :: c in name ==> IsAsciiAlnum(c) || c == '_'
  {
    seq(|path|, i requires 0 <= i < |path| => if IsAsciiAlnum(path[i]) then path[i] else '_')
  }

  /** A name already made of letters, digits and `_` is left as it is, so the
      transformation is idempotent. */
  lemma PathAsASVarNameIdempotent(path: string)
    ensures PathAsASVarName(PathAsASVarName(path)) == PathAsASVarName(path)
  {
    var once := PathAsASVarName(path);
    var twice := PathAsASVarName(once);
    assert forall i :: 0 <= i < |once| ==> twice[i] == once[i];
  }

  /** `CleanASPath`: every backslash becomes a forward slash. */
  function CleanASPath(path: string): (clean: string)
    ensures |clean| == |path|
    ensures forall i :: 0 <= i < |path| && path[i] != '\\' ==> clean[i] == path[i]
    ensures forall i :: 0 <= i < |path| && path[i] == '\\' ==> clean[i] == '/'
    ensures '\\' !in clean
  {
    seq(|path|, i requires 0 <= i < |path| => if path[i] == '\\' then '/' else path[i])
  }

  lemma CleanASPathIdempotent(path: string)
    ensures CleanASPath(CleanASPath(path)) == CleanASPath(path)
  {
    var once := CleanASPath(path);
    var twice := CleanASPath(once);
    assert forall i :: 0 <= i < |once| ==> twice[i] == once[i];
  }

  /** The identifier does not depend on the separator style: a key and its
      cleaned form yield the same ActionScript name. */
  lemma VarNameIgnoresSeparatorStyle(path: string)
    ensures PathAsASVarName(CleanASPath(path)) == PathAsASVarName(path)
  {
    var a := PathAsASVarName(CleanASPath(path));
    var b := PathAsASVarName(path);
    assert forall i :: 0 <= i < |path| ==> a[i] == b[i];
  }
}
