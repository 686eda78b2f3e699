/**
 Path joining of fileio: getcurrentdirectory (its test mode, and the POSIX
 getcwd call with the host's directory as a parameter), isabsolutepath, and
 getabsolutepath, which writes curdir and a relative path into a caller's
 buffer of `buflen` chars and reports the length it needs when that is too
 small.
 */
module FileIO {
  import opened Buffers

  /** FILEIO_DIRECTORY_SEPARATOR and FILEIO_DIRECTORY_SEPARATOR_ALT on POSIX. */
  const Separator: char := '/'
  const SeparatorAlt: char := '/'

  /** FILEIO_TEST_CURRENTDIRECTORY on POSIX. */
  const TestCurrentDirectory: string := "/tmp/"

  /** FILEIO_MAX_PATH_LENGTH, which is MAXPATHLEN on POSIX (4096 on Linux). */
  const MaxPathLength: nat := 4096

  /** The flag bits the code reads: FILEIO_FLAGS_TEST (0x2000, which survives
      the FILEIO_FLAGS_MASK passed on to getcurrentdirectory) and
      GETABSOLUTEPATH_FLAGS_TRYNOTCOPY (1). */
  datatype Flags = Flags(test: bool, tryNotCopy: bool)

  /** What the host reports as the working directory: a path, or a failure. */
  datatype HostCwd = Cwd(dir: string) | Failed

  /** A return code and the caller's buffer afterwards. */
  datatype Answer = Answer(code: int, buf: seq<Slot<char>>)

  /** The character the C code reads at `path[i]`: past the end of the C
      string it meets the NUL. */
  function At(s: string, i: nat): char
  {
    if i < |s| then s[i] else '\0'
  }

  /** isabsolutepath on POSIX. */
  predicate IsAbsolutePath(path: string)
  {
    At(path, 0) == Separator
  }

  /** isabsolutepath on Windows. */
  predicate IsAbsolutePathWindows(path: string)
  {
    (At(path, 0) != '\0' && At(path, 1) == ':' && (At(path, 2) == '\\' || At(path, 2) == '/'))
    || (At(path, 0) == '\\' && At(path, 1) == '\\')
  }

  /** Both tests in terms of the C string the argument designates. */
  lemma IsAbsolutePathOfCString(path: string)
    ensures var c := CString(path);
      && (IsAbsolutePath(path) <==> |c| > 0 && c[0] == '/')
      && (IsAbsolutePathWindows(path) <==>
            (|c| >= 3 && c[1] == ':' && (c[2] == '\\' || c[2] == '/'))
            || (|c| >= 2 && c[0] == '\\' && c[1] == '\\'))
  {
    var c := CString(path);
    if |c| < |path| {
      assert path[|c|] == '\0';
    }
    if |c| > 0 {
      assert path[0] == c[0];
    }
    if |c| > 1 {
      assert path[1] == c[1];
    }
    if |c| > 2 {
      assert path[2] == c[2];
    }
  }

  // ---------------------------------------------------------------------------
  // The copy loops
  // ---------------------------------------------------------------------------

  /** `for(;; path++, i++) { if(i < buflen) buf[i] = *path; if(!*path) break; }`:
      each char of `s`, then its NUL, stored from index `i` on, each only
      if its index lies inside the buffer. */
  function CopyOut(buf: seq<Slot<char>>, i: nat, s: string): (r: seq<Slot<char>>)
    ensures |r| == |buf|
    decreases |s|
  {
    if |s| == 0 then Store(buf, i, '\0')
    else CopyOut(Store(buf, i, s[0]), i + 1, s[1..])
  }

  /** What the copy leaves where: `s` and its NUL from index `i` on, as far
      as the buffer goes, and every other cell as it was. */
  lemma {:induction false} CopyOutContents(buf: seq<Slot<char>>, i: nat, s: string)
    ensures var r := CopyOut(buf, i, s);
      forall j :: 0 <= j < |buf| ==>
        r[j] == (if i <= j <= i + |s| then Written((s + ['\0'])[j - i]) else buf[j])
    decreases |s|
  {
    var r := CopyOut(buf, i, s);
    if |s| > 0 {
      var b1 := Store(buf, i, s[0]);
      assert r == CopyOut(b1, i + 1, s[1..]);
      CopyOutContents(b1, i + 1, s[1..]);
      forall j | 0 <= j < |buf|
        ensures r[j] == (if i <= j <= i + |s| then Written((s + ['\0'])[j - i]) else buf[j])
      {
        if i + 1 <= j <= i + |s| {
          assert (s[1..] + ['\0'])[j - (i + 1)] == (s + ['\0'])[j - i];
        } else if j == i {
          assert r[j] == b1[j] == Written(s[0]);
        } else {
          assert r[j] == b1[j];
        }
      }
    }
  }

  /** The cells of `buf` read from index `at` on hold `s`. */
  predicate HoldsAt(buf: seq<Slot<char>>, at: nat, s: string)
  {
    at + |s| <= |buf| && forall k :: 0 <= k < |s| ==> buf[at + k] == Written(s[k])
  }

  /** A copy that fits leaves `s` and its NUL at `i`, and the cells before
      `i` as they were. */
  lemma CopyOutFits(buf: seq<Slot<char>>, i: nat, s: string)
    requires i + |s| < |buf|
    ensures var r := CopyOut(buf, i, s);
      && HoldsAt(r, i, s + ['\0'])
      && r[..i] == buf[..i]
  {
    CopyOutContents(buf, i, s);
  }

  // ---------------------------------------------------------------------------
  // getcurrentdirectory
  // ---------------------------------------------------------------------------

  /** getcurrentdirectory(flags, buf, buflen). In test mode the directory is
      "/tmp/". Otherwise getcwd fails with EINVAL on a buffer of size 0,
      stores the host's directory when it fits with its NUL, and fails with
      ERANGE, answered by MAXPATHLEN, when it does not. A failure other than
      ERANGE (EINVAL, or a host that cannot report a directory at all) gives
      -1, as the code's GetCurrentDirectory branch does. */
  function GetCurrentDirectory(test: bool, host: HostCwd, buflen: nat): (r: Answer)
    ensures |r.buf| == buflen
  {
    if test then
      var n := |TestCurrentDirectory| + 1;
      if buflen < n then Answer(n, Blank(buflen))
      else Answer(0, CopyOut(Blank(buflen), 0, TestCurrentDirectory))
    else if buflen == 0 then Answer(-1, Blank(0))
    else
      match host
      case Cwd(dir) =>
        var d := CString(dir);
        if |d| + 1 <= buflen then Answer(0, CopyOut(Blank(buflen), 0, d))
        else Answer(MaxPathLength, Blank(buflen))
      case Failed => Answer(-1, Blank(buflen))
  }

  /** The directory a successful getcurrentdirectory stores. */
  function CurrentDirectory(test: bool, host: HostCwd): (d: string)
    ensures '\0' !in d
  {
    if test then TestCurrentDirectory
    else if host.Cwd? then CString(host.dir)
    else []
  }

  /** getcurrentdirectory returns 0 exactly when the directory and its NUL
      fit, and then the buffer holds them; otherwise it writes nothing, and
      a positive answer is the directory's length with its NUL, or
      MAXPATHLEN when getcwd reported ERANGE. Outside test mode a buffer of
      size 0 is a getcwd failure. */
  lemma GetCurrentDirectoryContract(test: bool, host: HostCwd, buflen: nat)
    ensures var r := GetCurrentDirectory(test, host, buflen);
      var d := CurrentDirectory(test, host);
      && (r.code == 0 <==> (test || host.Cwd?) && |d| + 1 <= buflen)
      && (r.code == 0 ==> HoldsAt(r.buf, 0, d + ['\0']))
      && (r.code != 0 ==> r.buf == Blank(buflen))
      && (r.code > 0 ==> buflen < |d| + 1)
      && (r.code > 0 && test ==> r.code == |d| + 1)
      && (r.code > 0 && !test ==> r.code == MaxPathLength)
      && (r.code < 0 <==> !test && (host.Failed? || buflen == 0))
  {
    var d := CurrentDirectory(test, host);
    if (test || host.Cwd?) && |d| + 1 <= buflen {
      CopyOutFits(Blank(buflen), 0, d);
    }
  }

  /** The test-mode figures of fileio_AllTests: "/tmp/" and its NUL need 6
      chars, and 6 are enough. */
  lemma TestCurrentDirectoryExamples()
    ensures GetCurrentDirectory(true, Failed, 0) == Answer(6, [])
    ensures GetCurrentDirectory(true, Failed, 5).code == 6
    ensures var r := GetCurrentDirectory(true, Failed, 6);
      r.code == 0 && r.buf == WrittenAll("/tmp/\0")
  {
    var r := GetCurrentDirectory(true, Failed, 6);
    CopyOutFits(Blank(6), 0, "/tmp/");
    assert "/tmp/" + ['\0'] == "/tmp/\0";
  }

  // ---------------------------------------------------------------------------
  // getabsolutepath
  // ---------------------------------------------------------------------------

  /** How getabsolutepath judges that a result of `n` chars fits: as the
      code does, when the chars alone fit in `buflen`, or as its header
      describes, counting the NUL too. */
  datatype Rule = AsWritten | NulCounted

  /** The buffer length a result of `n` chars needs under each rule. */
  function Room(rule: Rule, n: nat): nat
  {
    if rule.AsWritten? then n else n + 1
  }

  /** The copy that ends getabsolutepath: `p` and its NUL are stored from
      index `i` on, as far as the buffer reaches, and every other cell is
      left as it was; then success when the result fits, or else the length
      it needs. */
  function CopyPath(rule: Rule, buf: seq<Slot<char>>, i: nat, p: string): (r: Answer)
    ensures |r.buf| == |buf|
    ensures forall j :: 0 <= j < |buf| ==>
      r.buf[j] == (if i <= j <= i + |p| then Written((p + ['\0'])[j - i]) else buf[j])
    ensures r.code == 0 <==> Room(rule, i + |p|) <= |buf|
    ensures r.code != 0 ==> r.code == Room(rule, i + |p|)
  {
    CopyOutContents(buf, i, p);
    var need := Room(rule, i + |p|);
    Answer(if need <= |buf| then 0 else need, CopyOut(buf, i, p))
  }

  /** Neither curdir ends with a separator nor the path starts with one. */
  predicate NeedsSeparator(d: string, p: string)
    requires |d| > 0 && |p| > 0
  {
    d[|d| - 1] != Separator && d[|d| - 1] != SeparatorAlt
    && p[0] != Separator && p[0] != SeparatorAlt
  }

  /** The part of getabsolutepath after getcurrentdirectory has stored `d`
      and its NUL in `buf`, for a non-empty relative path `p`. */
  function Join(rule: Rule, buf: seq<Slot<char>>, d: string, p: string): (r: Answer)
    requires |p| > 0
    ensures |r.buf| == |buf|
  {
    var i := |d|;
    if i == 0 then Answer(-77, buf)
    else if NeedsSeparator(d, p) then
      if i + 1 >= |buf| then Answer(Room(rule, i + 1 + |p|), buf)
      else CopyPath(rule, Store(buf, i, Separator), i + 1, p)
    else CopyPath(rule, buf, i, p)
  }

  /** getabsolutepath(path, flags, buf, buflen) on POSIX, under either rule. */
  function GetAbsolutePathWith(rule: Rule, path: string, flags: Flags, host: HostCwd, buflen: nat): (r: Answer)
    ensures |r.buf| == buflen
  {
    var p := CString(path);
    if IsAbsolutePath(p) then
      if flags.tryNotCopy then Answer(-110, Blank(buflen))
      else CopyPath(rule, Blank(buflen), 0, p)
    else
      var cwd := GetCurrentDirectory(flags.test, host, buflen);
      if cwd.code != 0 then
        if cwd.code < 0 then cwd
        else Answer(cwd.code + 1 + |p|, cwd.buf)
      else if |p| == 0 then cwd
      else Join(rule, cwd.buf, CurrentDirectory(flags.test, host), p)
  }

  /** getabsolutepath as written. */
  function GetAbsolutePath(path: string, flags: Flags, host: HostCwd, buflen: nat): (r: Answer)
    ensures |r.buf| == buflen
    ensures IsAbsolutePath(CString(path)) && flags.tryNotCopy ==> r == Answer(-110, Blank(buflen))
  {
    GetAbsolutePathWith(AsWritten, path, flags, host, buflen)
  }

  /** getabsolutepath as its header describes it: success only with the NUL
      stored, and a required length that counts the NUL. */
  function GetAbsolutePathTerminated(path: string, flags: Flags, host: HostCwd, buflen: nat): (r: Answer)
    ensures |r.buf| == buflen
    ensures IsAbsolutePath(CString(path)) && flags.tryNotCopy ==> r == Answer(-110, Blank(buflen))
  {
    GetAbsolutePathWith(NulCounted, path, flags, host, buflen)
  }

  /** The path getabsolutepath puts together: curdir alone for an empty
      path; otherwise curdir and path with one separator between them
      unless one of them already supplies it. */
  function Joined(d: string, p: string): (j: string)
    requires |d| > 0
    ensures |d| + |p| <= |j| <= |d| + 1 + |p| && j[..|d|] == d
    ensures |p| > 0 ==> j[|j| - |p|..] == p
    ensures |j| == |d| + 1 + |p| <==> |p| > 0 && NeedsSeparator(d, p)
    ensures |j| == |d| + 1 + |p| ==> j[|d|] == Separator
  {
    if |p| == 0 then d
    else if NeedsSeparator(d, p) then d + [Separator] + p
    else d + p
  }

  /** What getabsolutepath produces: an absolute path as it is, a relative
      one joined to the current directory. */
  function Result(p: string, d: string): string
    requires |d| > 0
  {
    if IsAbsolutePath(p) then p else Joined(d, p)
  }

  /** The chars a call that succeeded leaves at the front of the buffer: the
      result and its NUL, or the result alone when it fills the buffer. */
  function Stored(j: string, buflen: nat): (s: string)
    requires |j| <= buflen
    ensures |j| <= |s| <= buflen && s[..|j|] == j
    ensures |s| == |j| + 1 <==> |j| < buflen
  {
    if |j| < buflen then j + ['\0'] else j
  }

  /** A buffer holding `s + t` holds `s`. */
  lemma HoldsAtPrefix(buf: seq<Slot<char>>, s: string, t: string)
    requires HoldsAt(buf, 0, s + t)
    ensures HoldsAt(buf, 0, s)
  {
    forall k | 0 <= k < |s| ensures buf[k] == Written(s[k]) {
      assert (s + t)[k] == s[k];
    }
  }

  /** Overwriting the NUL after the current directory with a separator. */
  lemma SeparatorAfter(buf: seq<Slot<char>>, d: string)
    requires HoldsAt(buf, 0, d + ['\0'])
    ensures HoldsAt(Store(buf, |d|, Separator), 0, d + [Separator])
  {
    var b1 := Store(buf, |d|, Separator);
    forall k | 0 <= k < |d| + 1 ensures b1[k] == Written((d + [Separator])[k]) {
      if k < |d| {
        assert (d + ['\0'])[k] == d[k] == (d + [Separator])[k];
      }
    }
  }

  /** The final copy after a buffer already holding `front`: on success the
      buffer holds `front + p`, with its NUL when there is room for it. */
  lemma CopyPathAfter(rule: Rule, buf: seq<Slot<char>>, front: string, p: string)
    requires HoldsAt(buf, 0, front)
    ensures var r := CopyPath(rule, buf, |front|, p); var j := front + p;
      r.code == 0 ==> HoldsAt(r.buf, 0, Stored(j, |buf|))
  {
    var r := CopyPath(rule, buf, |front|, p);
    var j := front + p;
    CopyOutContents(buf, |front|, p);
    if r.code == 0 {
      var s := Stored(j, |buf|);
      forall k | 0 <= k < |s| ensures r.buf[k] == Written(s[k]) {
        if k < |front| {
          assert s[k] == front[k];
        } else {
          assert s[k] == (p + ['\0'])[k - |front|];
        }
      }
    }
  }

  /** Join when a separator goes between: the code's early return on a
      buffer too short for it asks for the joined length too. */
  lemma JoinWithSeparator(rule: Rule, buf: seq<Slot<char>>, d: string, p: string)
    requires |d| > 0 && |p| > 0 && NeedsSeparator(d, p)
    requires HoldsAt(buf, 0, d + ['\0'])
    ensures var j := Joined(d, p); var r := Join(rule, buf, d, p);
      && (r.code == 0 <==> Room(rule, |j|) <= |buf|)
      && (r.code != 0 ==> r.code == Room(rule, |j|))
      && (r.code == 0 ==> HoldsAt(r.buf, 0, Stored(j, |buf|)))
  {
    var j := Joined(d, p);
    assert j == d + [Separator] + p;
    if |d| + 1 < |buf| {
      SeparatorAfter(buf, d);
      CopyPathAfter(rule, Store(buf, |d|, Separator), d + [Separator], p);
    }
  }

  /** Join when curdir or path already supplies the separator. */
  lemma JoinWithoutSeparator(rule: Rule, buf: seq<Slot<char>>, d: string, p: string)
    requires |d| > 0 && |p| > 0 && !NeedsSeparator(d, p)
    requires HoldsAt(buf, 0, d + ['\0'])
    ensures var j := Joined(d, p); var r := Join(rule, buf, d, p);
      && (r.code == 0 <==> Room(rule, |j|) <= |buf|)
      && (r.code != 0 ==> r.code == Room(rule, |j|))
      && (r.code == 0 ==> HoldsAt(r.buf, 0, Stored(j, |buf|)))
  {
    assert Joined(d, p) == d + p;
    HoldsAtPrefix(buf, d, ['\0']);
    CopyPathAfter(rule, buf, d, p);
  }

  /** An absolute path is copied as it is: success exactly when it fits, its
      length (with the NUL under the header's rule) otherwise, and nothing
      stored past its NUL. */
  lemma AbsoluteCopied(rule: Rule, path: string, flags: Flags, host: HostCwd, buflen: nat)
    requires IsAbsolutePath(CString(path)) && !flags.tryNotCopy
    ensures var p := CString(path); var r := GetAbsolutePathWith(rule, path, flags, host, buflen);
      && (r.code == 0 <==> Room(rule, |p|) <= buflen)
      && (r.code != 0 ==> r.code == Room(rule, |p|))
      && (r.code == 0 ==> HoldsAt(r.buf, 0, Stored(p, buflen)))
      && (forall j :: |p| < j < buflen ==> r.buf[j] == Unwritten)
  {
    var p := CString(path);
    var r := GetAbsolutePathWith(rule, path, flags, host, buflen);
    assert r == CopyPath(rule, Blank(buflen), 0, p);
    CopyPathAfter(rule, Blank(buflen), [], p);
    assert [] + p == p;
    CopyOutContents(Blank(buflen), 0, p);
  }

  /** A relative path when getcurrentdirectory succeeds with a non-empty
      directory: success exactly when the joined path fits, and then the
      buffer holds it; otherwise the length it needs. */
  lemma RelativeJoined(rule: Rule, path: string, flags: Flags, host: HostCwd, buflen: nat)
    requires !IsAbsolutePath(CString(path))
    requires GetCurrentDirectory(flags.test, host, buflen).code == 0
    requires CurrentDirectory(flags.test, host) != []
    ensures var j := Joined(CurrentDirectory(flags.test, host), CString(path));
      var r := GetAbsolutePathWith(rule, path, flags, host, buflen);
      && (r.code == 0 <==> Room(rule, |j|) <= buflen)
      && (r.code != 0 ==> r.code == Room(rule, |j|))
      && (r.code == 0 ==> HoldsAt(r.buf, 0, Stored(j, buflen)))
  {
    var p := CString(path);
    var d := CurrentDirectory(flags.test, host);
    var cwd := GetCurrentDirectory(flags.test, host, buflen);
    GetCurrentDirectoryContract(flags.test, host, buflen);
    if |p| == 0 {
      HoldsAtPrefix(cwd.buf, d, ['\0']);
      assert Stored(d, buflen) == d + ['\0'];
    } else if NeedsSeparator(d, p) {
      JoinWithSeparator(rule, cwd.buf, d, p);
    } else {
      JoinWithoutSeparator(rule, cwd.buf, d, p);
    }
  }

  /** An empty path gives the current directory itself, or the same error. */
  lemma EmptyPathIsCurrentDirectory(rule: Rule, path: string, flags: Flags, host: HostCwd, buflen: nat)
    requires CString(path) == []
    requires GetCurrentDirectory(flags.test, host, buflen).code <= 0
    ensures GetAbsolutePathWith(rule, path, flags, host, buflen) == GetCurrentDirectory(flags.test, host, buflen)
  {
  }

  /** When getcurrentdirectory cannot fill the buffer, its answer is passed
      on: an error unchanged, a size grown by a separator and the path. */
  lemma CurrentDirectoryFailurePassedOn(rule: Rule, path: string, flags: Flags, host: HostCwd, buflen: nat)
    requires !IsAbsolutePath(CString(path))
    requires GetCurrentDirectory(flags.test, host, buflen).code != 0
    ensures var n := GetCurrentDirectory(flags.test, host, buflen).code;
      var r := GetAbsolutePathWith(rule, path, flags, host, buflen);
      && (n < 0 ==> r.code == n)
      && (n > 0 ==> r.code == n + 1 + |CString(path)|)
      && r.buf == Blank(buflen)
  {
    GetCurrentDirectoryContract(flags.test, host, buflen);
  }

  /** In test mode, or with an absolute host directory, what getabsolutepath
      produces is absolute. */
  lemma ResultIsAbsolute(path: string, flags: Flags, host: HostCwd)
    requires flags.test || (host.Cwd? && IsAbsolutePath(CString(host.dir)))
    ensures IsAbsolutePath(Result(CString(path), CurrentDirectory(flags.test, host)))
  {
  }

  /** fileio_AllTests in test mode, on a buffer of MAXPATHLEN chars: the
      empty path gives "/tmp/". */
  lemma TestModeEmptyPath()
    ensures var r := GetAbsolutePath("", Flags(true, false), Failed, MaxPathLength);
      r.code == 0 && HoldsAt(r.buf, 0, "/tmp/\0")
  {
    CStringOfClean("");
    RelativeJoined(AsWritten, "", Flags(true, false), Failed, MaxPathLength);
    assert "/tmp/" + ['\0'] == "/tmp/\0";
  }

  /** With no room at all, "foo" asks for 10 chars: 6 for the directory,
      then a separator and the path. */
  lemma TestModeNoRoom()
    ensures GetAbsolutePath("foo", Flags(true, false), Failed, 0).code == 10
  {
    CStringOfClean("foo");
    CurrentDirectoryFailurePassedOn(AsWritten, "foo", Flags(true, false), Failed, 0);
  }

  /** "foo" gives "/tmp/foo". */
  lemma TestModeRelative()
    ensures var r := GetAbsolutePath("foo", Flags(true, false), Failed, MaxPathLength);
      r.code == 0 && HoldsAt(r.buf, 0, "/tmp/foo\0")
  {
    CStringOfClean("foo");
    RelativeJoined(AsWritten, "foo", Flags(true, false), Failed, MaxPathLength);
    assert Joined("/tmp/", "foo") == "/tmp/foo";
    assert "/tmp/foo" + ['\0'] == "/tmp/foo\0";
  }

  /** "." gives "/tmp/.". */
  lemma TestModeDot()
    ensures var r := GetAbsolutePath(".", Flags(true, false), Failed, MaxPathLength);
      r.code == 0 && HoldsAt(r.buf, 0, "/tmp/.\0")
  {
    CStringOfClean(".");
    RelativeJoined(AsWritten, ".", Flags(true, false), Failed, MaxPathLength);
    assert Joined("/tmp/", ".") == "/tmp/.";
    assert "/tmp/." + ['\0'] == "/tmp/.\0";
  }

  /** "/tmp/foo" is already absolute and comes back as it is. */
  lemma TestModeAbsolute()
    ensures var r := GetAbsolutePath("/tmp/foo", Flags(true, false), Failed, MaxPathLength);
      r.code == 0 && HoldsAt(r.buf, 0, "/tmp/foo\0")
  {
    CStringOfClean("/tmp/foo");
    AbsoluteCopied(AsWritten, "/tmp/foo", Flags(true, false), Failed, MaxPathLength);
    assert "/tmp/foo" + ['\0'] == "/tmp/foo\0";
  }

  // ---------------------------------------------------------------------------
  // A result that fills the buffer
  // ---------------------------------------------------------------------------

  /** As written, a result exactly `buflen` long counts as success although
      no NUL follows it: "/ab" into three chars returns 0 and leaves "/ab"
      unterminated, and "foo" in test mode does the same with eight. */
  lemma FullBufferUnterminated()
    ensures GetAbsolutePath("/ab", Flags(false, false), Failed, 3) == Answer(0, WrittenAll("/ab"))
    ensures var r := GetAbsolutePath("foo", Flags(true, false), Failed, 8);
      r.code == 0 && r.buf == WrittenAll("/tmp/foo")
  {
    CStringOfClean("/ab");
    AbsoluteCopied(AsWritten, "/ab", Flags(false, false), Failed, 3);
    CStringOfClean("foo");
    RelativeJoined(AsWritten, "foo", Flags(true, false), Failed, 8);
    assert Joined("/tmp/", "foo") == "/tmp/foo";
  }

  /** The host directory is a usable one: non-empty and shorter than MAXPATHLEN. */
  predicate SaneHost(flags: Flags, host: HostCwd)
  {
    flags.test || (host.Cwd? && 0 < |CString(host.dir)| < MaxPathLength)
  }

  /** Under the header's rule, success always leaves the result followed by
      its NUL in the buffer. */
  lemma TerminatedOnSuccess(path: string, flags: Flags, host: HostCwd, buflen: nat)
    requires SaneHost(flags, host)
    ensures var r := GetAbsolutePathTerminated(path, flags, host, buflen);
      var j := Result(CString(path), CurrentDirectory(flags.test, host));
      r.code == 0 ==> HoldsAt(r.buf, 0, j + ['\0'])
  {
    var p := CString(path);
    var r := GetAbsolutePathTerminated(path, flags, host, buflen);
    if IsAbsolutePath(p) {
      if !flags.tryNotCopy {
        AbsoluteCopied(NulCounted, path, flags, host, buflen);
      }
    } else {
      GetCurrentDirectoryContract(flags.test, host, buflen);
      if GetCurrentDirectory(flags.test, host, buflen).code == 0 {
        RelativeJoined(NulCounted, path, flags, host, buflen);
      }
    }
  }

  /** A positive answer is a buffer length with which the same call
      succeeds, under either rule. */
  lemma RetrySucceeds(rule: Rule, path: string, flags: Flags, host: HostCwd, buflen: nat)
    requires SaneHost(flags, host)
    requires GetAbsolutePathWith(rule, path, flags, host, buflen).code > 0
    ensures var n := GetAbsolutePathWith(rule, path, flags, host, buflen).code;
      GetAbsolutePathWith(rule, path, flags, host, n).code == 0
  {
    var p := CString(path);
    var n := GetAbsolutePathWith(rule, path, flags, host, buflen).code;
    if IsAbsolutePath(p) {
      AbsoluteCopied(rule, path, flags, host, buflen);
      AbsoluteCopied(rule, path, flags, host, n);
    } else {
      var d := CurrentDirectory(flags.test, host);
      GetCurrentDirectoryContract(flags.test, host, buflen);
      GetCurrentDirectoryContract(flags.test, host, n);
      RelativeJoined(rule, path, flags, host, n);
      if GetCurrentDirectory(flags.test, host, buflen).code == 0 {
        RelativeJoined(rule, path, flags, host, buflen);
      }
    }
  }

  /** The header's rule on the input that shows the gap: "/ab" needs four
      chars, and with four it stores "/ab" and the NUL. */
  lemma FullBufferTerminated()
    ensures GetAbsolutePathTerminated("/ab", Flags(false, false), Failed, 3).code == 4
    ensures GetAbsolutePathTerminated("/ab", Flags(false, false), Failed, 4) == Answer(0, WrittenAll("/ab\0"))
  {
    CStringOfClean("/ab");
    AbsoluteCopied(NulCounted, "/ab", Flags(false, false), Failed, 3);
    AbsoluteCopied(NulCounted, "/ab", Flags(false, false), Failed, 4);
    assert "/ab" + ['\0'] == "/ab\0";
  }
}
