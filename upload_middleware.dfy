/** The upload middleware's rules: which MIME types are accepted, how large a file
    may be, and the name a stored file gets (a timestamp, a dash, a random number,
    then the original file's extension). */
module UploadMiddleware {
  import opened Js

  const AllowedTypes: seq<string> := [
    "image/jpeg",
    "image/png",
    "image/gif",
    "application/pdf",
    "application/msword",
    "application/vnd.openxmlformats-officedocument.wordprocessingml.document"
  ]

  /** `limits.fileSize`: 5 MiB. */
  const MaxFileSize: nat := 5 * 1024 * 1024

  datatype FilterResult = Accept | Reject(message: string)

  /** `fileFilter`: accept exactly the listed MIME types. */
  function FileFilter(mimetype: string): (r: FilterResult)
    ensures r == Accept <==> mimetype in AllowedTypes
    ensures r != Accept ==> r == Reject("Unsupported file type")
  {
    if mimetype in AllowedTypes then Accept else Reject("Unsupported file type")
  }

  /** What the upload stage decides for one file: the filter runs on the file's
      headers before its bytes arrive, then the size limit applies (a file of
      exactly the limit is accepted). */
  function AdmitFile(mimetype: string, size: nat): (r: FilterResult)
    ensures r == Accept <==> mimetype in AllowedTypes && size <= 5242880
    ensures mimetype !in AllowedTypes ==> r == Reject("Unsupported file type")
  {
    match FileFilter(mimetype)
    case Reject(message) => Reject(message)
    case Accept => if size <= MaxFileSize then Accept else Reject("File too large")
  }

  // ---------------------------------------------------------------------------
  // File names

  /** The index of the last occurrence of `c` in `s`, if any. */
  function LastIndexOf(s: string, c: char): (r: Option<nat>)
    ensures r.None? <==> c !in s
    ensures r.Some? ==> r.value < |s| && s[r.value] == c && c !in s[r.value + 1..]
  {
    if s == [] then None
    else if s[|s| - 1] == c then Some(|s| - 1)
    else
      assert s == s[..|s| - 1] + [s[|s| - 1]];
      var r := LastIndexOf(s[..|s| - 1], c);
      assert r.Some? ==> s[r.value + 1..] == s[..|s| - 1][r.value + 1..] + [s[|s| - 1]];
      r
  }

  function StripTrailingSlashes(p: string): (r: string)
    ensures |r| <= |p| && r == p[..|r|]
    ensures r == [] || r[|r| - 1] != '/'
    ensures forall k :: |r| <= k < |p| ==> p[k] == '/'
  {
    if p != [] && p[|p| - 1] == '/' then StripTrailingSlashes(p[..|p| - 1]) else p
  }

  /** The last path segment: what follows the last `/`. */
  function LastSegment(p: string): (r: string)
    ensures '/' !in r
    ensures |r| <= |p| && r == p[|p| - |r|..]
    ensures |r| == |p| || p[|p| - |r| - 1] == '/'
  {
    match LastIndexOf(p, '/')
    case None => p
    case Some(i) => p[i + 1..]
  }

  /** Node's POSIX `path.extname`: trailing slashes are ignored; within the last
      segment the extension runs from the last `.` to the end, unless that dot
      is the segment's first character or the segment is `..`. */
  function ExtName(p: string): (e: string)
    ensures e == [] || (e[0] == '.' && '.' !in e[1..] && '/' !in e && e[|e| - 1] != '/')
  {
    var base := LastSegment(StripTrailingSlashes(p));
    if base == ".." then []
    else
      match LastIndexOf(base, '.')
      case None => []
      case Some(d) =>
        if d == 0 then []
        else
          FromLastDot(base, d);
          base[d..]
  }

  /** The part of a slash-free segment from its last dot on is a dot followed by
      neither dots nor slashes. */
  lemma FromLastDot(base: string, d: nat)
    requires '/' !in base
    requires d < |base| && base[d] == '.' && '.' !in base[d + 1..]
    ensures var e := base[d..]; e[0] == '.' && '.' !in e[1..] && '/' !in e && e[|e| - 1] != '/'
  {
    assert base[d..][1..] == base[d + 1..];
    assert forall k :: 0 <= k < |base[d..]| ==> base[d..][k] == base[d + k];
  }

  /** The last occurrence is the one with no further occurrence after it. */
  lemma LastIndexOfIs(s: string, c: char, i: nat)
    requires i < |s| && s[i] == c && c !in s[i + 1..]
    ensures LastIndexOf(s, c) == Some(i)
  {
  }

  /** A name without slashes whose last dot is at `d > 0` has the extension that
      starts at that dot. */
  lemma ExtNameOfPlainName(s: string, d: nat)
    requires '/' !in s && s != ".."
    requires 0 < d < |s| && s[d] == '.' && '.' !in s[d + 1..]
    ensures ExtName(s) == s[d..]
  {
    assert StripTrailingSlashes(s) == s;
    assert LastSegment(s) == s;
    LastIndexOfIs(s, '.', d);
  }

  /** Of several extensions, `path.extname` gives only the last. */
  lemma ExtNameTakesLastExtension()
    ensures ExtName("archive.tar.gz") == ".gz"
  {
    var b := "archive.tar.gz";
    assert b[12..] == "gz";
    assert '/' !in b;
    ExtNameOfPlainName(b, 11);
  }

  /** A name whose only dot is its first character, such as `.profile`, has no
      extension. */
  lemma ExtNameOfDotfile(s: string)
    requires '/' !in s && s != [] && s[0] == '.' && '.' !in s[1..]
    ensures ExtName(s) == []
  {
    assert StripTrailingSlashes(s) == s;
    assert LastSegment(s) == s;
    LastIndexOfIs(s, '.', 0);
  }

  /** The decimal digits of `n`, as `String(n)` writes an integer. */
  function Decimal(n: nat): (s: string)
    ensures s != []
    ensures forall k :: 0 <= k < |s| ==> '0' <= s[k] <= '9'
  {
    var digit := ['0' + (n % 10) as char];
    if n < 10 then digit else Decimal(n / 10) + digit
  }

  /** The number a string of decimal digits denotes. */
  function DigitsValue(s: string): nat
    requires forall k :: 0 <= k < |s| ==> '0' <= s[k] <= '9'
  {
    if s == [] then 0 else DigitsValue(s[..|s| - 1]) * 10 + (s[|s| - 1] - '0') as nat
  }

  /** The digits `Decimal` writes denote `n`. */
  lemma {:induction false} DecimalValue(n: nat)
    ensures DigitsValue(Decimal(n)) == n
  {
    var s := Decimal(n);
    if n >= 10 {
      assert s[..|s| - 1] == Decimal(n / 10);
      DecimalValue(n / 10);
    }
  }

  /** Different numbers are written differently: a reading can be recovered from
      its digits. */
  lemma DecimalInjective(a: nat, b: nat)
    requires Decimal(a) == Decimal(b)
    ensures a == b
  {
    DecimalValue(a);
    DecimalValue(b);
  }

  /** The part of a stored name before the extension has neither dots nor slashes. */
  lemma SuffixPlain(now: nat, random: nat)
    ensures var prefix := Decimal(now) + "-" + Decimal(random);
            prefix != [] && '.' !in prefix && '/' !in prefix && prefix[|prefix| - 1] != '/'
  {
    var prefix := Decimal(now) + "-" + Decimal(random);
    assert forall k :: 0 <= k < |prefix| ==> prefix[k] != '.' && prefix[k] != '/';
  }

  /** A name without slashes or dots has no extension. */
  lemma ExtNameOfDotless(s: string)
    requires '/' !in s && '.' !in s && (s == [] || s[|s| - 1] != '/')
    ensures ExtName(s) == []
  {
    assert StripTrailingSlashes(s) == s;
    assert LastSegment(s) == s;
  }

  /** An extension keeps its meaning behind a prefix with neither dots nor slashes. */
  lemma ExtNameAfterPlainPrefix(prefix: string, e: string)
    requires prefix != [] && '.' !in prefix && '/' !in prefix
    requires e == [] || (e[0] == '.' && '.' !in e[1..] && '/' !in e)
    ensures ExtName(prefix + e) == e
  {
    var f := prefix + e;
    if e == [] {
      assert f == prefix;
      ExtNameOfDotless(f);
    } else {
      assert '/' !in f by {
        forall k | 0 <= k < |f| ensures f[k] != '/' {
          if k >= |prefix| { assert f[k] == e[k - |prefix|]; }
        }
      }
      assert f[|prefix| + 1..] == e[1..];
      assert f[|prefix|..] == e;
      assert f != ".." by {
        assert f[|prefix|] == '.' && f[0] != '.';
      }
      ExtNameOfPlainName(f, |prefix|);
    }
  }

  /** The `filename` callback: `now` is `Date.now()` and `random` is
      `Math.round(Math.random() * 1e9)`, both taken as inputs. A stored file keeps
      the extension of the file that was uploaded. */
  function StoredFilename(now: nat, random: nat, originalname: string): (f: string)
    ensures f == Decimal(now) + "-" + Decimal(random) + ExtName(originalname) && '/' !in f
    ensures ExtName(f) == ExtName(originalname)
  {
    var prefix := Decimal(now) + "-" + Decimal(random);
    SuffixPlain(now, random);
    ExtNameAfterPlainPrefix(prefix, ExtName(originalname));
    prefix + ExtName(originalname)
  }
}
