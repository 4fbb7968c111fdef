/**
 * The validation and naming helpers of the upload route (app.py): the file
 * type allow-list, the extension under which an original is stored, and the
 * client address used for quota accounting.
 */
module Uploads {
  import opened Wrappers
  import opened Text

  /** `ALLOWED_EXTENSIONS` (app.py:32). */
  const AllowedExtensions: set<string> := {"png", "jpg", "jpeg", "gif", "webp", "heic", "heif"}

  /** The extension an original is stored under when its name has none (app.py:161). */
  const DefaultExtension: string := ".jpg"

  /** The address recorded when neither the header nor the connection gives one (app.py:124). */
  const UnknownAddress: string := "0.0.0.0"

  /** `allowed_file` (app.py:36-37). */
  function AllowedFile(filename: string): bool {
    var k := LastIndexOf(filename, '.');
    k >= 0 && Lower(filename[k + 1..]) in AllowedExtensions
  }

  /**
   * A name whose last dot is at `k` is allowed exactly when the text after
   * that dot, lower-cased, is on the allow-list.
   */
  lemma AllowedFileAtLastDot(filename: string, k: int)
    requires 0 <= k < |filename| && filename[k] == '.'
    requires forall j :: k < j < |filename| ==> filename[j] != '.'
    ensures AllowedFile(filename) <==> Lower(filename[k + 1..]) in AllowedExtensions
  {
    LastIndexOfIs(filename, '.', k);
  }

  /** A name without any dot is never allowed, whatever its letters. */
  lemma NoDotNotAllowed(filename: string)
    requires forall k :: 0 <= k < |filename| ==> filename[k] != '.'
    ensures !AllowedFile(filename)
  {
  }

  /** The case of the extension does not matter: "IMG.JPG" is allowed like "img.jpg". */
  lemma AllowedFileIgnoresCase(stem: string, ext: string)
    requires '.' !in ext
    ensures AllowedFile(stem + "." + ext) <==> Lower(ext) in AllowedExtensions
  {
    var name := stem + "." + ext;
    assert name[|stem|] == '.';
    assert name[|stem| + 1..] == ext;
    forall j | |stem| < j < |name| ensures name[j] != '.' {
      assert name[j] == ext[j - |stem| - 1];
    }
    AllowedFileAtLastDot(name, |stem|);
  }

  /**
   * The extension part of `os.path.splitext(p)` (POSIX): from the last dot to
   * the end, when that dot lies in the last path component and is preceded
   * there by something other than dots; otherwise empty (".bashrc" has none).
   */
  function SplitExtension(p: string): (ext: string)
    ensures ext == "" || (ext[0] == '.' && |ext| <= |p| && ext == p[|p| - |ext|..] && '.' !in ext[1..] && '/' !in ext)
  {
    var sep := LastIndexOf(p, '/');
    var dot := LastIndexOf(p, '.');
    if dot > sep && HasNonDot(p, sep, dot) then p[dot..] else ""
  }

  /** Some character strictly between positions `lo` and `hi` of `p` is not a dot. */
  predicate HasNonDot(p: string, lo: int, hi: int)
    requires -1 <= lo && hi <= |p|
  {
    exists i :: lo < i < hi && p[i] != '.'
  }

  /** `LastIndexOf` is determined by its contract. */
  lemma LastIndexOfIs(s: string, c: char, k: int)
    requires -1 <= k < |s| && (k >= 0 ==> s[k] == c)
    requires forall j :: k < j < |s| ==> s[j] != c
    ensures LastIndexOf(s, c) == k
  {
  }

  /**
   * A name made of a base whose last component holds a character other than a
   * dot, a dot, and a suffix without dots or slashes has that suffix as its
   * extension.
   */
  lemma SplitExtensionOfSuffix(p: string, base: string, suffix: string, i: int)
    requires p == base + "." + suffix
    requires '.' !in suffix && '/' !in suffix
    requires LastIndexOf(base, '/') < i < |base| && base[i] != '.'
    ensures SplitExtension(p) == "." + suffix
  {
    var sep := LastIndexOf(base, '/');
    LastOfSuffixed(base, suffix, '.', |base|);
    LastOfSuffixed(base, suffix, '/', sep);
    assert HasNonDot(p, sep, |base|) by {
      assert p[i] == base[i];
    }
    assert SplitExtension(p) == p[|base|..];
    assert p == base + ("." + suffix);
    assert p[|base|..] == "." + suffix;
  }

  /** The last `c` of `base + "." + suffix`, when `suffix` holds none. */
  lemma LastOfSuffixed(base: string, suffix: string, c: char, k: int)
    requires c !in suffix
    requires k == (if c == '.' then |base| else LastIndexOf(base, c))
    ensures LastIndexOf(base + "." + suffix, c) == k
  {
    var p := base + "." + suffix;
    forall j | k < j < |p| ensures p[j] != c {
      if j < |base| { assert p[j] == base[j]; }
      else if j > |base| { assert p[j] == suffix[j - |base| - 1]; }
    }
    if k >= 0 { assert p[k] == c; }
    LastIndexOfIs(p, c, k);
  }

  /**
   * The extension an original is saved under (app.py:161): the lower-cased
   * `splitext` extension of the sanitised name, or ".jpg" when it has none.
   */
  function OriginalExtension(originalName: string): (ext: string)
    ensures |ext| > 0 && ext[0] == '.' && '.' !in ext[1..] && '/' !in ext
    ensures SplitExtension(originalName) == "" ==> ext == DefaultExtension
    ensures SplitExtension(originalName) != "" ==> ext == Lower(SplitExtension(originalName))
  {
    var lowered := Lower(SplitExtension(originalName));
    if lowered != "" then lowered else DefaultExtension
  }

  /**
   * The upload route checks the raw client name `raw` (app.py:156) but takes
   * the extension from the sanitised name `name` (app.py:160-161). When
   * sanitising keeps the raw name's last extension `ext` and leaves a stem that
   * is not all dots, the original is stored under "." and that allowed
   * extension, lower-cased.
   */
  lemma AllowedNameKeepsExtension(raw: string, rawStem: string, name: string, stem: string, ext: string, i: int)
    requires raw == rawStem + "." + ext && '.' !in ext
    requires AllowedFile(raw)
    requires name == stem + "." + ext
    requires '/' !in ext && '/' !in stem
    requires 0 <= i < |stem| && stem[i] != '.'
    ensures Lower(ext) in AllowedExtensions
    ensures OriginalExtension(name) == "." + Lower(ext)
  {
    AllowedFileIgnoresCase(rawStem, ext);
    LastIndexOfIs(stem, '/', -1);
    SplitExtensionOfSuffix(name, stem, ext, i);
    LowerKeepsDot(ext);
  }

  /** A sanitised name without a dot has no extension, so the original is stored as ".jpg". */
  lemma DotFreeNameStoredAsDefault(name: string)
    requires '.' !in name
    ensures OriginalExtension(name) == DefaultExtension
  {
    LastIndexOfIs(name, '.', -1);
  }

  /**
   * The raw name "日本.png" passes `allowed_file`, but a sanitiser that keeps
   * only ASCII letters, digits, "_", "-" and "." and drops leading dots turns
   * it into "png", which is stored under ".jpg".
   */
  lemma AllowedRawNameStoredAsDefault()
    ensures AllowedFile("日本.png")
    ensures OriginalExtension("png") == DefaultExtension
  {
    AllowedFileIgnoresCase("日本", "png");
    assert "日本" + "." + "png" == "日本.png";
    assert Lower("png") == "png";
    DotFreeNameStoredAsDefault("png");
  }

  /** Lower-casing leaves a leading dot in place. */
  lemma LowerKeepsDot(ext: string)
    ensures Lower("." + ext) == "." + Lower(ext)
  {
    var l := Lower("." + ext);
    forall k | 0 <= k < |l| ensures l[k] == ("." + Lower(ext))[k] {
      if k > 0 { assert ("." + ext)[k] == ext[k - 1]; }
    }
  }

  /** `xff.split(",")[0]`: the text before the first comma, or all of it. */
  function FirstField(s: string): (f: string)
    ensures f <= s && ',' !in f
    ensures |f| < |s| ==> s[|f|] == ','
  {
    var k := FirstIndexOf(s, ',');
    if k == -1 then s else s[..k]
  }

  /**
   * `_client_ip` (app.py:114-124). `forwardedFor` is the X-Forwarded-For
   * header, "" when it is absent; `remoteAddr` is the connection address, if
   * the server reports one.
   */
  function ClientIp(forwardedFor: string, remoteAddr: Option<string>): (ip: string)
    ensures ip != ""
    ensures Strip(FirstField(forwardedFor)) != "" ==> ip == Strip(FirstField(forwardedFor))
    ensures Strip(FirstField(forwardedFor)) == "" && remoteAddr.Some? && remoteAddr.value != ""
            ==> ip == remoteAddr.value
    ensures Strip(FirstField(forwardedFor)) == "" && (remoteAddr.None? || remoteAddr.value == "")
            ==> ip == UnknownAddress
  {
    var fallback := if remoteAddr.Some? && remoteAddr.value != "" then remoteAddr.value else UnknownAddress;
    if forwardedFor != "" then
      var ip := Strip(FirstField(forwardedFor));
      if ip != "" then ip else fallback
    else fallback
  }

  /** Proxies appended after the first comma never change the address. */
  lemma ProxyHopsIgnored(first: string, rest: string, remoteAddr: Option<string>)
    requires ',' !in first
    ensures ClientIp(first + "," + rest, remoteAddr) == ClientIp(first, remoteAddr)
  {
    var s := first + "," + rest;
    assert s[|first|] == ',';
    assert s[..|first|] == first;
    assert forall j :: 0 <= j < |first| ==> s[j] == first[j];
    assert FirstIndexOf(s, ',') == |first|;
  }

  /** A header holding one clean address yields exactly that address. */
  lemma ClientIpOfPlainAddress(address: string, remoteAddr: Option<string>)
    requires address != "" && ',' !in address
    requires !IsSpace(address[0]) && !IsSpace(address[|address| - 1])
    ensures ClientIp(address, remoteAddr) == address
  {
    assert FirstIndexOf(address, ',') == -1;
    assert SkipSpaces(address, 0) == 0;
    assert SkipSpacesBack(address, 0, |address|) == |address|;
  }

  /** An address taken from the header has no comma and no surrounding whitespace. */
  lemma ClientIpFromHeaderIsClean(forwardedFor: string, remoteAddr: Option<string>)
    requires Strip(FirstField(forwardedFor)) != ""
    ensures var ip := ClientIp(forwardedFor, remoteAddr);
            ',' !in ip && !IsSpace(ip[0]) && !IsSpace(ip[|ip| - 1])
  {
    StripAddsNothing(FirstField(forwardedFor), ',');
  }

  /** Stripping never introduces a character. */
  lemma StripAddsNothing(s: string, c: char)
    requires c !in s
    ensures c !in Strip(s)
  {
    var i := SkipSpaces(s, 0);
    var r := Strip(s);
    forall j | 0 <= j < |r| ensures r[j] != c {
      assert r[j] == s[i + j];
    }
  }
}
