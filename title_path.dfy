/** `create_title_path`: the path of the text file a converted disk image is
    written to, `<folder>/<folder name>_<position of the image in the folder>.txt`.
    POSIX path rules; the folder listing is given as a parameter. */
module TitlePath {
  import opened Values

  predicate AllSlashes(s: string)
  {
    forall j :: 0 <= j < |s| ==> s[j] == '/'
  }

  /** `p.rfind('/') + 1`: the index just past the last slash, 0 if none. */
  function AfterLastSlash(p: string): (i: nat)
    ensures i <= |p|
    ensures i > 0 ==> p[i - 1] == '/'
    ensures forall j :: i <= j < |p| ==> p[j] != '/'
  {
    if p == [] then 0
    else if p[|p| - 1] == '/' then |p|
    else AfterLastSlash(p[..|p| - 1])
  }

  /** `h.rstrip('/')`. */
  function StripSlashes(h: string): (r: string)
    ensures |r| <= |h| && h[..|r|] == r && AllSlashes(h[|r|..])
    ensures r == [] || r[|r| - 1] != '/'
  {
    if h == [] || h[|h| - 1] != '/' then h
    else StripSlashes(h[..|h| - 1])
  }

  /** `os.path.split(p)`: the head and the tail around the last slash; the
      head loses its trailing slashes unless it consists of slashes only. */
  function Split(p: string): (parts: (string, string))
  {
    var i := AfterLastSlash(p);
    var head, tail := p[..i], p[i..];
    if head != [] && !AllSlashes(head) then (StripSlashes(head), tail) else (head, tail)
  }

  /** The tail is all the text after the last slash; the path is the head,
      then slashes only, then the tail; the head ends in a slash only when it
      is all slashes, and then no slash is dropped. */
  lemma SplitParts(p: string)
    ensures var (head, tail) := Split(p);
            '/' !in tail && |head| + |tail| <= |p| &&
            p[..|head|] == head && p[|p| - |tail|..] == tail &&
            (|tail| == |p| || p[|p| - |tail| - 1] == '/') &&
            AllSlashes(p[|head|..|p| - |tail|]) &&
            (head == [] || head[|head| - 1] != '/' || AllSlashes(head)) &&
            (AllSlashes(head) ==> |head| + |tail| == |p|)
  {
    var i := AfterLastSlash(p);
    var head, tail := p[..i], p[i..];
    if head != [] && !AllSlashes(head) {
      var h := StripSlashes(head);
      assert p[|h|..|p| - |tail|] == head[|h|..];
    }
  }

  /** `os.path.basename(p)`: everything after the last slash. */
  function Basename(p: string): (b: string)
    ensures '/' !in b && |b| <= |p| && p[|p| - |b|..] == b
  {
    p[AfterLastSlash(p)..]
  }

  /** The base name is the whole text after the last slash: the character
      before it, if any, is a slash. */
  lemma BasenameParts(p: string)
    ensures var b := Basename(p);
            '/' !in b && p[|p| - |b|..] == b && (|b| == |p| || p[|p| - |b| - 1] == '/')
  {
  }

  /** `os.path.join(a, b)` for two parts. */
  function Join(a: string, b: string): (r: string)
    ensures |r| >= |b| && r[|r| - |b|..] == b
    ensures b != [] && b[0] != '/' && a != [] && a[|a| - 1] != '/' ==> r == a + "/" + b
  {
    if b != [] && b[0] == '/' then b
    else if a == [] || a[|a| - 1] == '/' then a + b
    else a + "/" + b
  }

  /** Joining a name without slashes gives a path whose base name is that name. */
  lemma JoinBasename(a: string, b: string)
    requires '/' !in b
    ensures Basename(Join(a, b)) == b
  {
    var r := Join(a, b);
    var i := AfterLastSlash(r);
    if |b| < |r| {
      assert r[|r| - |b| - 1] == '/';
    }
    assert i == |r| - |b|;
  }

  /** `name.lower().replace(' ', '_')`, lower-casing character by character
      with `lower`. */
  function Sanitize(name: string, lower: char -> char): (r: string)
    ensures |r| == |name| && ' ' !in r
    ensures forall i :: 0 <= i < |name| && lower(name[i]) != ' ' ==> r[i] == lower(name[i])
    ensures forall i :: 0 <= i < |name| && lower(name[i]) == ' ' ==> r[i] == '_'
  {
    seq(|name|, i requires 0 <= i < |name| => if lower(name[i]) == ' ' then '_' else lower(name[i]))
  }

  /** `listing.index(x)`: the first position of `x`, None where Python raises
      ValueError. */
  function IndexOf(listing: seq<string>, x: string): (r: Option<nat>)
    ensures r.Some? <==> x in listing
    ensures r.Some? ==> r.value < |listing| && listing[r.value] == x &&
                        forall j :: 0 <= j < r.value ==> listing[j] != x
  {
    if listing == [] then None
    else if listing[0] == x then Some(0)
    else match IndexOf(listing[1..], x)
      case None => None
      case Some(k) => Some(k + 1)
  }

  function Digit(d: nat): (c: char)
    requires d < 10
    ensures '0' <= c <= '9'
  {
    ('0' as int + d) as char
  }

  /** `str(n)` for a natural number. */
  function Decimal(n: nat): (s: string)
    ensures |s| > 0 && forall i :: 0 <= i < |s| ==> '0' <= s[i] <= '9'
    ensures s[0] == '0' ==> n == 0
  {
    if n < 10 then [Digit(n)] else Decimal(n / 10) + [Digit(n % 10)]
  }

  /** `int(s)` for a string of decimal digits. */
  function ParseDecimal(s: string): nat
    requires forall i :: 0 <= i < |s| ==> '0' <= s[i] <= '9'
  {
    if s == [] then 0
    else ParseDecimal(s[..|s| - 1]) * 10 + (s[|s| - 1] as int - '0' as int)
  }

  lemma {:induction false} DecimalRoundTrip(n: nat)
    ensures ParseDecimal(Decimal(n)) == n
  {
    if n >= 10 {
      DecimalRoundTrip(n / 10);
      var s := Decimal(n);
      assert s[..|s| - 1] == Decimal(n / 10);
    }
  }

  /** The name of the converted file for the image at 0-based position `k`. */
  function TitleName(folder: string, lower: char -> char, k: nat): string
  {
    Sanitize(Basename(folder), lower) + "_" + Decimal(k + 1) + ".txt"
  }

  /** `create_title_path(filePath)` where `os.listdir` of the folder gives `listing`. */
  function CreateTitlePath(filePath: string, listing: seq<string>, lower: char -> char): (r: Result<string>)
    ensures r.Ok? <==> Split(filePath).1 in listing
    ensures r.Err? ==> r.error == ValueError
  {
    var (folder, filename) := Split(filePath);
    match IndexOf(listing, filename)
    case None => Err(ValueError)
    case Some(k) => Ok(Join(folder, TitleName(folder, lower, k)))
  }

  /** The file is numbered by its first position in the listing, counting
      from 1, and that number reads back as the position plus one. */
  lemma TitlePathIndex(filePath: string, listing: seq<string>, lower: char -> char, k: nat)
    requires k < |listing| && listing[k] == Split(filePath).1
    requires forall j :: 0 <= j < k ==> listing[j] != listing[k]
    ensures var folder := Split(filePath).0;
            CreateTitlePath(filePath, listing, lower) == Ok(Join(folder, TitleName(folder, lower, k)))
    ensures ParseDecimal(Decimal(k + 1)) == k + 1 >= 1
  {
    FirstIndex(listing, k);
    DecimalRoundTrip(k + 1);
  }

  /** `list.index` finds an element at its first position. */
  lemma {:induction false} FirstIndex(listing: seq<string>, k: nat)
    requires k < |listing|
    requires forall j :: 0 <= j < k ==> listing[j] != listing[k]
    ensures IndexOf(listing, listing[k]) == Some(k)
  {
    if k > 0 {
      var rest := listing[1..];
      assert listing[0] != listing[k];
      forall j | 0 <= j < k - 1 ensures rest[j] != rest[k - 1] {
        assert rest[j] == listing[j + 1];
      }
      FirstIndex(rest, k - 1);
    }
  }

  /** Sanitizing a name without slashes adds none, as long as lower-casing
      turns no other character into a slash. */
  lemma SanitizeNoSlash(name: string, lower: char -> char)
    requires '/' !in name
    requires forall c :: c != '/' ==> lower(c) != '/'
    ensures '/' !in Sanitize(name, lower)
  {
    var s := Sanitize(name, lower);
    forall i | 0 <= i < |s| ensures s[i] != '/' {
      assert name[i] in name;
    }
  }

  /** The folder part of the new name holds no space and, as long as
      lower-casing turns no other character into a slash, the new name is the
      base name of the returned path. */
  lemma TitleNameIsBasename(folder: string, lower: char -> char, k: nat)
    requires forall c :: c != '/' ==> lower(c) != '/'
    ensures ' ' !in Sanitize(Basename(folder), lower)
    ensures Basename(Join(folder, TitleName(folder, lower, k))) == TitleName(folder, lower, k)
  {
    var s, d := Sanitize(Basename(folder), lower), Decimal(k + 1);
    var name := TitleName(folder, lower, k);
    assert name == s + "_" + d + ".txt";
    SanitizeNoSlash(Basename(folder), lower);
    assert '/' !in d by {
      forall i | 0 <= i < |d| ensures d[i] != '/' {
      }
    }
    assert '/' !in s + "_" + d;
    JoinBasename(folder, name);
  }
}
