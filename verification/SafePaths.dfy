/** Which model-supplied file paths are accepted, and where an accepted path lands. */
module SafePaths {
  import opened Text

  function ToSlashes(s: string): (r: string)
    ensures |r| == |s|
    ensures forall i | 0 <= i < |s| :: r[i] == if s[i] == '\\' then '/' else s[i]
  {
    seq(|s|, i requires 0 <= i < |s| => if s[i] == '\\' then '/' else s[i])
  }

  /** `s.split("/")` */
  function Split(s: string): (parts: seq<string>)
    ensures |parts| >= 1
  {
    if s == [] then [[]]
    else
      var rest := Split(s[1..]);
      if s[0] == '/' then [[]] + rest else [[s[0]] + rest[0]] + rest[1..]
  }

  /** `"/".join(parts)` */
  function Join(parts: seq<string>): string
    requires |parts| >= 1
  {
    if |parts| == 1 then parts[0] else parts[0] + ['/'] + Join(parts[1..])
  }

  /** Splitting loses nothing: joining the parts gives the text back. */
  lemma {:induction false} JoinSplit(s: string)
    ensures Join(Split(s)) == s
  {
    if s != [] {
      var rest := Split(s[1..]);
      JoinSplit(s[1..]);
      assert s == [s[0]] + s[1..];
      if s[0] == '/' {
        assert Split(s)[1..] == rest;
      } else {
        var first := [s[0]] + rest[0];
        assert Split(s)[0] == first && Split(s)[1..] == rest[1..];
        if |rest| > 1 {
          assert Join(Split(s)) == first + ['/'] + Join(rest[1..]);
        }
      }
    }
  }

  /** A Windows device: con, prn, aux, nul, or com or lpt with a digit from 1 to 9. */
  predicate IsDeviceName(name: string) {
    || name in {"con", "prn", "aux", "nul"}
    || (|name| == 4 && name[..3] in {"com", "lpt"} && '1' <= name[3] <= '9')
  }

  /** A device name alone or before a dot, in any case of letters. */
  predicate IsDevice(part: string) {
    exists n | 0 <= n <= |part| :: IsDeviceName(Lower(part)[..n]) && (n == |part| || part[n] == '.')
  }

  predicate IsPlain(part: string) {
    part != "" && part != "." && part != ".."
  }

  predicate SafePart(part: string) {
    IsPlain(part) && part[|part| - 1] != '.' && part[|part| - 1] != ' ' && !IsDevice(part)
  }

  predicate IsControl(c: char) {
    c as int < 32 || c as int == 127
  }

  predicate IsAbsolute(path: string) {
    StartsWith(path, "/")
  }

  /** `_safe_relative_path` */
  predicate SafeRelativePath(path: string) {
    if path == "" || path != Strip(path) then false
    else if exists c | c in path :: IsControl(c) then false
    else
      var normalized := ToSlashes(path);
      if IsAbsolute(normalized) || ':' in normalized then false
      else if exists part | part in Split(normalized) :: !SafePart(part) then false
      else !IsAbsolute(normalized)
  }

  /** Walks from directory `dir` along `parts`, the way a file system resolves "." and "..". */
  function Walk(dir: seq<string>, parts: seq<string>): seq<string>
    decreases |parts|
  {
    if parts == [] then dir
    else
      var next :=
        if parts[0] == "" || parts[0] == "." then dir
        else if parts[0] == ".." then (if dir == [] then [] else dir[..|dir| - 1])
        else dir + [parts[0]];
      Walk(next, parts[1..])
  }

  function Resolve(base: seq<string>, path: string): seq<string> {
    Walk(if IsAbsolute(path) then [] else base, Split(path))
  }

  lemma {:induction false} WalkPlain(dir: seq<string>, parts: seq<string>)
    ensures |Walk(dir, parts)| <= |dir| + |parts|
    ensures (forall p | p in parts :: IsPlain(p)) <==> |Walk(dir, parts)| == |dir| + |parts|
    ensures (forall p | p in parts :: IsPlain(p)) ==> Walk(dir, parts) == dir + parts
    decreases |parts|
  {
    if parts != [] {
      assert parts == [parts[0]] + parts[1..];
      if IsPlain(parts[0]) {
        WalkPlain(dir + [parts[0]], parts[1..]);
        assert dir + [parts[0]] + parts[1..] == dir + parts;
      } else {
        assert parts[0] in parts;
        WalkPlain(if parts[0] != ".." then dir else if dir == [] then [] else dir[..|dir| - 1], parts[1..]);
      }
    }
  }

  /** A path lands at exactly its own segments below every base just when it is
      relative and no segment is empty, "." or "..". */
  lemma {:induction false} LandsAtOwnSegments(path: string)
    ensures (forall base: seq<string> :: Resolve(base, path) == base + Split(path))
            <==> !IsAbsolute(path) && forall p | p in Split(path) :: IsPlain(p)
  {
    if !IsAbsolute(path) && forall p | p in Split(path) :: IsPlain(p) {
      forall base: seq<string> ensures Resolve(base, path) == base + Split(path) { WalkPlain(base, Split(path)); }
    } else {
      var base := [""];
      WalkPlain(if IsAbsolute(path) then [] else base, Split(path));
      assert |Resolve(base, path)| < |base + Split(path)|;
    }
  }

  /** Every accepted path stays strictly below the base directory, at its own segments. */
  lemma {:induction false} SafePathStaysBelow(base: seq<string>, path: string)
    requires SafeRelativePath(path)
    ensures Resolve(base, ToSlashes(path)) == base + Split(ToSlashes(path))
    ensures base < Resolve(base, ToSlashes(path))
  {
    LandsAtOwnSegments(ToSlashes(path));
  }

  /** Two accepted paths name the same file just when they differ only in the slashes used. */
  lemma {:induction false} SamePlaceOnlyUpToSlashes(base: seq<string>, a: string, b: string)
    requires SafeRelativePath(a) && SafeRelativePath(b)
    ensures Resolve(base, ToSlashes(a)) == Resolve(base, ToSlashes(b)) <==> ToSlashes(a) == ToSlashes(b)
  {
    SafePathStaysBelow(base, a);
    SafePathStaysBelow(base, b);
    var pa, pb := Split(ToSlashes(a)), Split(ToSlashes(b));
    if base + pa == base + pb {
      assert pa == (base + pa)[|base|..] == (base + pb)[|base|..] == pb;
      JoinSplit(ToSlashes(a));
      JoinSplit(ToSlashes(b));
    }
  }

  // ---- Which paths are accepted ----

  predicate IsSlash(c: char) {
    c == '/' || c == '\\'
  }

  /** The text up to the first dot. */
  function Stem(part: string): string {
    if part == [] || part[0] == '.' then [] else [part[0]] + Stem(part[1..])
  }

  lemma {:induction false} StemSplits(part: string)
    ensures Stem(part) <= part && '.' !in Stem(part)
    ensures |Stem(part)| < |part| ==> part[|Stem(part)|] == '.'
  {
    if part != [] && part[0] != '.' { StemSplits(part[1..]); }
  }

  lemma {:induction false} DeviceNamesHaveNoDot(name: string)
    requires IsDeviceName(name)
    ensures '.' !in name
  {
    if |name| == 4 { assert name == name[..3] + [name[3]]; }
  }

  /** A segment is a device name just when its text up to the first dot is one. */
  lemma {:induction false} DeviceByStem(part: string)
    ensures IsDevice(part) <==> IsDeviceName(Stem(Lower(part)))
  {
    var lower := Lower(part);
    StemSplits(lower);
    forall n | 0 <= n <= |part| ensures part[..n] <= part && (n < |part| ==> (lower[n] == '.' <==> part[n] == '.')) {
      if n < |part| { LowerOfChar(part[n]); }
    }
    if n :| 0 <= n <= |part| && IsDeviceName(lower[..n]) && (n == |part| || part[n] == '.') {
      DeviceNamesHaveNoDot(lower[..n]);
      StemEndsAt(lower, n);
    }
    if IsDeviceName(Stem(lower)) {
      assert lower[..|Stem(lower)|] == Stem(lower);
    }
  }

  lemma {:induction false} StemEndsAt(text: string, n: nat)
    requires n <= |text| && '.' !in text[..n] && (n == |text| || text[n] == '.')
    ensures Stem(text) == text[..n]
  {
    if n > 0 {
      assert text[0] in text[..n];
      assert text[..n] == [text[0]] + text[1..][..n - 1];
      StemEndsAt(text[1..], n - 1);
    }
  }

  lemma {:induction false} DeviceExamples()
    ensures IsDevice("CON") && IsDevice("prn.txt") && IsDevice("Aux.tar.gz") && IsDevice("nul.")
  {
    DeviceWith("CON", "con", "");
    DeviceWith("prn.txt", "prn", "");
    DeviceWith("Aux.tar.gz", "aux", "");
    DeviceWith("nul.", "nul", "");
  }

  lemma {:induction false} PortExamples()
    ensures IsDevice("com1") && IsDevice("COM9.log") && IsDevice("lpt1") && IsDevice("LPT9")
    ensures !IsDevice("com0") && !IsDevice("com10") && !IsDevice("console") && !IsDevice("lpt") && !IsDevice("acon")
  {
    DeviceWith("com1", "com", "1");
    DeviceWith("COM9.log", "com", "9");
    DeviceWith("lpt1", "lpt", "1");
    DeviceWith("LPT9", "lpt", "9");
    NoDevice("com0");
    NoDevice("com10");
    NoDevice("console");
    NoDevice("lpt");
    NoDevice("acon");
  }

  lemma {:induction false} DeviceWith(part: string, head: string, tail: string)
    requires var n := |head| + |tail|;
             && n <= |part| && (n == |part| || part[n] == '.')
             && forall k | 0 <= k < n :: LowerChar(part[k]) == (head + tail)[k]
    requires if tail == "" then head in {"con", "prn", "aux", "nul"}
             else |head| == 3 && head in {"com", "lpt"} && |tail| == 1 && '1' <= tail[0] <= '9'
    ensures IsDevice(part)
  {
    var n := |head| + |tail|;
    assert Lower(part)[..n] == head + tail;
    assert tail == "" ==> head + tail == head;
    assert tail != "" ==> (head + tail)[..3] == head && (head + tail)[3] == tail[0];
  }

  /** A text without dots whose small-letter form is no device name. */
  lemma {:induction false} NoDevice(part: string)
    requires forall k | 0 <= k < |part| :: part[k] != '.' && LowerChar(part[k]) == part[k]
    requires part !in {"con", "prn", "aux", "nul"}
    requires |part| != 4 || part[0] !in {'c', 'l'} || part[3] < '1' || part[3] > '9'
    ensures !IsDevice(part)
  {
    assert Lower(part) == part && part[..|part|] == part;
    if |part| == 4 {
      assert part[..3][0] == part[0];
    }
  }

  /** The rules for one segment: not empty, no dot or blank at its end, which rules out "." and "..", and
      no device name. */
  predicate SegmentOk(part: string) {
    part != "" && part[|part| - 1] !in {'.', ' '} && !IsDeviceName(Stem(Lower(part)))
  }

  lemma {:induction false} SegmentOkIsSafe(part: string)
    ensures SafePart(part) <==> SegmentOk(part)
  {
    DeviceByStem(part);
  }

  lemma {:induction false} SplitHasNoSlash(s: string)
    ensures forall p | p in Split(s) :: '/' !in p
  {
    if s != [] {
      SplitHasNoSlash(s[1..]);
      var rest := Split(s[1..]);
      assert rest[0] in rest && forall p | p in rest[1..] :: p in rest;
    }
  }

  lemma {:induction false} SplitAfter(p: string, s: string)
    requires '/' !in p
    ensures Split(p + s) == [p + Split(s)[0]] + Split(s)[1..]
  {
    if p == [] {
      assert p + s == s && p + Split(s)[0] == Split(s)[0];
    } else {
      assert p[0] in p && forall c | c in p[1..] :: c in p;
      assert (p + s)[1..] == p[1..] + s;
      SplitAfter(p[1..], s);
      assert p + Split(s)[0] == [p[0]] + (p[1..] + Split(s)[0]);
    }
  }

  /** Splitting undoes joining, for parts without slashes. */
  lemma {:induction false} SplitJoin(parts: seq<string>)
    requires |parts| >= 1 && forall p | p in parts :: '/' !in p
    ensures Split(Join(parts)) == parts
  {
    assert parts[0] in parts;
    if |parts| == 1 {
      SplitAfter(parts[0], []);
      assert parts[0] + [] == parts[0] && Split([]) == [[]];
    } else {
      assert forall p | p in parts[1..] :: p in parts;
      SplitJoin(parts[1..]);
      var tail := ['/'] + Join(parts[1..]);
      assert tail[1..] == Join(parts[1..]);
      assert Split(tail) == [[]] + parts[1..];
      SplitAfter(parts[0], tail);
      assert parts[0] + tail == parts[0] + ['/'] + Join(parts[1..]);
      assert parts[0] + Split(tail)[0] == parts[0];
    }
  }

  /** The path, read with one kind of slash, is these segments joined by slashes, and all are in order. */
  predicate MadeOf(path: string, segments: seq<string>) {
    && |segments| >= 1 && ToSlashes(path) == Join(segments)
    && forall p | p in segments :: '/' !in p && SegmentOk(p)
  }

  lemma {:induction false} SafePartsAreSegments(path: string)
    ensures (forall p | p in Split(ToSlashes(path)) :: SafePart(p)) <==> exists segments :: MadeOf(path, segments)
  {
    var s := ToSlashes(path);
    JoinSplit(s);
    SplitHasNoSlash(s);
    forall p ensures SafePart(p) <==> SegmentOk(p) { SegmentOkIsSafe(p); }
    if forall p | p in Split(s) :: SafePart(p) {
      assert MadeOf(path, Split(s));
    }
    if segments :| MadeOf(path, segments) {
      SplitJoin(segments);
    }
  }

  lemma {:induction false} SlashesKeepColons(path: string)
    ensures ':' in ToSlashes(path) <==> ':' in path
    ensures path != "" ==> (IsAbsolute(ToSlashes(path)) <==> IsSlash(path[0]))
  {
    var s := ToSlashes(path);
    if k :| 0 <= k < |path| && path[k] == ':' { assert s[k] == ':'; }
    if k :| 0 <= k < |s| && s[k] == ':' { assert path[k] == ':'; }
  }

  /** Exactly which paths are accepted: not empty, no white space at the ends, no control character, no
      colon, no slash of either kind at the start, and made of segments that are all in order. */
  lemma {:induction false} AcceptedPaths(path: string)
    ensures SafeRelativePath(path)
            <==> && path != "" && !IsSpace(path[0]) && !IsSpace(path[|path| - 1])
                 && (forall c | c in path :: c as int >= 32 && c as int != 127 && c != ':')
                 && !IsSlash(path[0])
                 && exists segments :: MadeOf(path, segments)
  {
    StrippedAlready(path);
    SlashesKeepColons(path);
    SafePartsAreSegments(path);
  }

  /** Device names do not depend on the case of letters. */
  lemma {:induction false} DevicesIgnoreCase(a: string, b: string)
    requires SameTextButCase(a, b)
    ensures IsDevice(a) <==> IsDevice(b)
  {
    LowerIdentifiesCase(a, b);
    DeviceByStem(a);
    DeviceByStem(b);
  }
}
