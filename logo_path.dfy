/**
 * Choosing the logo file: `<dir>/logos/<name>` when that path exists, else
 * `<dir>/logos/linux`. Paths are joined the way `std::filesystem::path::operator/`
 * joins them on POSIX systems.
 */
module LogoPath {

  const LogosDir: string := "logos"
  const FallbackLogo: string := "linux"

  predicate IsAbsolute(p: string)
  {
    |p| > 0 && p[0] == '/'
  }

  /**
   * `p / q` on POSIX: an absolute `q` replaces `p`; otherwise `q` is appended, with a
   * '/' in between only if `p` has a filename (is non-empty and does not end in '/').
   */
  function PathJoin(p: string, q: string): (r: string)
    ensures IsAbsolute(q) ==> r == q
    ensures !IsAbsolute(q) ==> |r| == |p| + |q| || (|r| == |p| + |q| + 1 && r[|p|] == '/')
    ensures !IsAbsolute(q) ==> p <= r && r[|r| - |q|..] == q
    ensures !IsAbsolute(q) ==> (|r| == |p| + |q| + 1 <==> p != [] && p[|p| - 1] != '/')
  {
    if IsAbsolute(q) then q
    else if p == [] || p[|p| - 1] == '/' then p + q
    else p + "/" + q
  }

  /** `dir / "logos" / name`. */
  function LogoFile(dir: string, name: string): (r: string)
    ensures IsAbsolute(name) ==> r == name
    ensures !IsAbsolute(name) ==> |r| >= |name| + 6 && r[|r| - |name| - 6..] == "logos/" + name
  {
    PathJoin(PathJoin(dir, LogosDir), name)
  }

  /** The logo file chosen for `name`, given which paths exist. */
  function SelectLogoPath(dir: string, name: string, pathExists: string -> bool): (r: string)
    ensures r == LogoFile(dir, name) || r == LogoFile(dir, FallbackLogo)
    ensures pathExists(LogoFile(dir, name)) ==> r == LogoFile(dir, name)
    ensures !pathExists(LogoFile(dir, name)) ==> r == LogoFile(dir, FallbackLogo)
  {
    if pathExists(LogoFile(dir, name)) then LogoFile(dir, name) else LogoFile(dir, FallbackLogo)
  }

  /**
   * For an asset directory in canonical form (absolute, no trailing '/') and a name that is
   * not an absolute path, the candidate is literally `dir + "/logos/" + name`.
   */
  lemma LogoFileLiteral(dir: string, name: string)
    requires IsAbsolute(dir) && dir[|dir| - 1] != '/'
    requires !IsAbsolute(name)
    ensures LogoFile(dir, name) == dir + "/logos/" + name
    ensures LogoFile(dir, FallbackLogo) == dir + "/logos/linux"
  {
    LogoFileUnderDir(dir, name);
    LogoFileUnderDir(dir, FallbackLogo);
  }

  /**
   * For the root directory, which the asset directory is when the binary sits directly
   * under '/', no second '/' is added: the paths are `/logos/name` and `/logos/linux`.
   */
  lemma RootDirLogoFile(name: string)
    requires !IsAbsolute(name)
    ensures LogoFile("/", name) == "/logos/" + name
    ensures LogoFile("/", FallbackLogo) == "/logos/linux"
  {
    assert PathJoin("/", LogosDir) == "/logos";
    JoinWithSeparator("/logos", name);
    JoinWithSeparator("/logos", FallbackLogo);
  }

  lemma LogoFileUnderDir(dir: string, name: string)
    requires IsAbsolute(dir) && dir[|dir| - 1] != '/'
    requires !IsAbsolute(name)
    ensures LogoFile(dir, name) == dir + "/logos/" + name
  {
    JoinWithSeparator(dir, LogosDir);
    var logos := dir + "/logos";
    assert logos[|logos| - 1] == 's';
    JoinWithSeparator(logos, name);
    assert logos + "/" + name == dir + "/logos/" + name;
  }

  lemma JoinWithSeparator(p: string, q: string)
    requires p != [] && p[|p| - 1] != '/' && !IsAbsolute(q)
    ensures PathJoin(p, q) == p + "/" + q
  {
  }

  /** An absolute name replaces the whole path: the name itself is the candidate. */
  lemma AbsoluteNameReplacesPath(dir: string, name: string)
    requires IsAbsolute(name)
    ensures LogoFile(dir, name) == name
  {
  }

  /** Asking for `linux` gives the fallback whether or not it exists. */
  lemma LinuxNameIsFallback(dir: string, pathExists: string -> bool)
    ensures SelectLogoPath(dir, FallbackLogo, pathExists) == LogoFile(dir, FallbackLogo)
  {
  }
}
