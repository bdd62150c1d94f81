/** Mounting and mount resolution: a path is cut back to its last slash until what is left is a
    mount location. Strings are without their terminator; the copy that is cut is a buffer. */
module Vfs {

  const MAX_MOUNTS := 16
  const EINVAL := 1
  const ENOSYS := 5
  const ENODEV := 6

  /** An 8-bit string without embedded terminator. */
  predicate Text(s: string) {
    forall i :: 0 <= i < |s| ==> 0 < s[i] as int < 0x100
  }

  /** Character i as C code sees it: the terminator behind the end. */
  function CharAt(s: string, i: nat): char {
    if i < |s| then s[i] else '\0'
  }

  /** The buffer holds the string s and its terminator. */
  predicate Holds(buf: seq<char>, s: string) {
    Text(s) && |s| < |buf| && buf[..|s|] == s && buf[|s|] == '\0'
  }

  // ---- String functions ---------------------------------------------------------------------------

  method Strlen(buf: array<char>, ghost s: string) returns (n: nat)
    requires Holds(buf[..], s)
    ensures n == |s|
  {
    assert forall i :: 0 <= i < |s| ==> buf[i] == buf[..][..|s|][i] == s[i];
    n := 0;
    while buf[n] != '\0'
      invariant n <= |s|
      decreases |s| - n
    {
      n := n + 1;
    }
  }

  /** strcmp returns the difference of the first differing characters as an unsigned 32-bit value. */
  method Strcmp(s: string, t: string) returns (res: nat)
    requires Text(s) && Text(t)
    ensures res == 0 <==> s == t
    ensures s != t ==> exists k: nat ::
              && (forall i :: 0 <= i < k ==> CharAt(s, i) == CharAt(t, i)) && CharAt(s, k) != CharAt(t, k)
              && res == (CharAt(s, k) as int - CharAt(t, k) as int) % 0x1_0000_0000
  {
    var i := 0;
    while CharAt(s, i) == CharAt(t, i) && CharAt(t, i) != '\0'
      invariant i <= |s| && i <= |t|
      invariant forall k :: 0 <= k < i ==> CharAt(s, k) == CharAt(t, k)
      decreases |t| - i
    {
      i := i + 1;
    }
    res := (CharAt(s, i) as int - CharAt(t, i) as int) % 0x1_0000_0000;
    if CharAt(s, i) == CharAt(t, i) {
      assert |s| == i == |t|;
      assert forall k :: 0 <= k < i ==> s[k] == CharAt(s, k) == CharAt(t, k) == t[k];
      assert s == t;
    } else {
      assert s != t;
    }
  }

  /** Largest index below n that holds c; -1 if there is none. */
  function LastIndex(s: string, n: nat, c: char): (r: int)
    requires n <= |s|
    ensures -1 <= r < n && (r >= 0 ==> s[r] == c)
    ensures forall i :: r < i < n ==> s[i] != c
  {
    if n == 0 then -1 else if s[n - 1] == c then n - 1 else LastIndex(s, n - 1, c)
  }

  /** s cut behind its last c, not counting its very last character. */
  function Cut(s: string, c: char): (r: string)
    requires s != ""
    ensures r <= s && |r| >= 1
  {
    var i := LastIndex(s, |s| - 1, c);
    if i < 0 then s else s[..i + 1]
  }

  method StrBackspace(buf: array<char>, c: char, ghost s: string) returns (r: nat)
    requires Holds(buf[..], s) && s != ""
    modifies buf
    ensures Holds(buf[..], Cut(s, c))
    ensures r == if LastIndex(s, |s| - 1, c) >= 0 then 1 else 0
  {
    var i := Strlen(buf, s);
    i := i - 1;
    while i != 0
      invariant 0 <= i <= |s| - 1 && buf[..] == old(buf[..])
      invariant LastIndex(s, |s| - 1, c) == LastIndex(s, i, c)
    {
      i := i - 1;
      assert buf[..][..|s|][i] == s[i];
      if buf[i] == c {
        buf[i + 1] := '\0';
        assert buf[..][..i + 1] == old(buf[..])[..|s|][..i + 1] == s[..i + 1];
        return 1;
      }
    }
    r := 0;
  }

  // ---- Resolution ----------------------------------------------------------------------------------

  datatype Mount = Mount(loc: string, dev: nat)

  /** The strings a path is compared as: itself, and its proper prefixes that end in a slash. */
  predicate Candidate(path: string, p: string) {
    p == path || (p < path && p != "" && p[|p| - 1] == '/')
  }

  /** Mount i is the one with the longest location that is a candidate; the earliest if several
      share it. */
  ghost predicate Longest(mounts: seq<Mount>, path: string, i: nat) {
    && i < |mounts| && Candidate(path, mounts[i].loc)
    && forall j :: 0 <= j < |mounts| && Candidate(path, mounts[j].loc) ==>
         |mounts[j].loc| < |mounts[i].loc| || (mounts[j].loc == mounts[i].loc && i <= j)
  }

  /** The location found leads to the path or to a slash in it, and no location that is longer does. */
  lemma LongestMeans(mounts: seq<Mount>, path: string, id: nat, j: nat)
    requires path != "" && Longest(mounts, path, id) && j < |mounts|
    ensures var loc, other := mounts[id].loc, mounts[j].loc;
            && loc <= path && loc != "" && (loc == path || loc[|loc| - 1] == '/')
            && (other <= path && |other| > |loc| ==> other != path && other[|other| - 1] != '/')
            && (other == loc ==> id <= j)
  {
    if mounts[j].loc <= path && |mounts[j].loc| > |mounts[id].loc| { assert !Candidate(path, mounts[j].loc); }
    if mounts[j].loc == mounts[id].loc { assert Candidate(path, mounts[j].loc); }
  }

  ghost predicate Matches(mounts: seq<Mount>, path: string) {
    exists j :: 0 <= j < |mounts| && Candidate(path, mounts[j].loc)
  }

  lemma CutCandidate(path: string, cur: string)
    requires Candidate(path, cur) && cur != ""
    ensures Candidate(path, Cut(cur, '/'))
  {
  }

  /** Cutting goes to the next shorter candidate. */
  lemma CutNext(path: string, cur: string, p: string)
    requires Candidate(path, cur) && cur != "" && Candidate(path, p) && p != "" && |p| < |cur|
    ensures |p| <= |Cut(cur, '/')| < |cur|
  {
    assert p[|p| - 1] == '/' && cur[|p| - 1] == path[|p| - 1] == '/';
  }

  lemma SameLengthSame(path: string, p: string, q: string)
    requires Candidate(path, p) && Candidate(path, q) && |p| == |q|
    ensures p == q
  {
  }

  /** The inner loop of __find_mount: the first mount whose location is `cur`. */
  method ScanMounts(mounts: seq<Mount>, cur: string) returns (found: bool, i: nat)
    requires |mounts| <= MAX_MOUNTS && Text(cur) && forall j :: 0 <= j < |mounts| ==> Text(mounts[j].loc)
    ensures found ==> i < |mounts| && mounts[i].loc == cur && forall j :: 0 <= j < i ==> mounts[j].loc != cur
    ensures !found ==> forall j :: 0 <= j < |mounts| ==> mounts[j].loc != cur
  {
    i := 0;
    while i < MAX_MOUNTS
      invariant 0 <= i <= |mounts|
      invariant forall j :: 0 <= j < i ==> mounts[j].loc != cur
      decreases MAX_MOUNTS - i
    {
      if i >= |mounts| {
        return false, i;
      }
      var res := Strcmp(mounts[i].loc, cur);
      if res == 0 {
        return true, i;
      }
      i := i + 1;
    }
    found := false;
  }

  /** __find_mount. It comes to an end exactly if the path is absolute or some mount location is a
      candidate; NeverEnds shows the other half. */
  method FindMount(mounts: seq<Mount>, path: string) returns (id: nat, adjust: nat)
    requires |mounts| <= MAX_MOUNTS && forall j :: 0 <= j < |mounts| ==> Text(mounts[j].loc)
    requires Text(path) && path != "" && (path[0] == '/' || Matches(mounts, path))
    ensures Matches(mounts, path) ==> Longest(mounts, path, id) && adjust == |mounts[id].loc| - 1
    ensures !Matches(mounts, path) ==> id == 0 && adjust == 0
  {
    var orig := new char[|path| + 1](i requires 0 <= i < |path| + 1 => if i < |path| then path[i] else '\0');
    ghost var cur := path;
    assert orig[..][..|path|] == path;
    while true
      invariant Holds(orig[..], cur) && cur != "" && Candidate(path, cur)
      invariant forall j :: 0 <= j < |mounts| && Candidate(path, mounts[j].loc) ==> |mounts[j].loc| <= |cur|
      decreases |cur|
    {
      var n := Strlen(orig, cur);
      var text := orig[..n];
      assert text == cur;
      var found, i := ScanMounts(mounts, text);
      if found {
        forall j | 0 <= j < |mounts| && Candidate(path, mounts[j].loc)
          ensures |mounts[j].loc| < |mounts[i].loc| || (mounts[j].loc == mounts[i].loc && i <= j)
        {
          if |mounts[j].loc| == |cur| { SameLengthSame(path, mounts[j].loc, cur); }
        }
        return i, n - 1;
      }
      var root := Strcmp(text, "/");
      if root == 0 {
        forall j | 0 <= j < |mounts| ensures !Candidate(path, mounts[j].loc) {
          if Candidate(path, mounts[j].loc) { SameLengthSame(path, mounts[j].loc, cur); }
        }
        break;
      }
      ghost var next := Cut(cur, '/');
      CutCandidate(path, cur);
      StillCutting(mounts, path, cur);
      forall j | 0 <= j < |mounts| && Candidate(path, mounts[j].loc) ensures |mounts[j].loc| <= |next| {
        if |mounts[j].loc| == |cur| { SameLengthSame(path, mounts[j].loc, cur); }
        CutNext(path, cur, mounts[j].loc);
      }
      var r := StrBackspace(orig, '/', cur);
      cur := next;
    }
    return 0, 0;
  }

  lemma StillCutting(mounts: seq<Mount>, path: string, cur: string)
    requires path != "" && (path[0] == '/' || Matches(mounts, path)) && cur != "" && Candidate(path, cur) && cur != "/"
    requires forall j :: 0 <= j < |mounts| ==> mounts[j].loc != cur
    requires forall j :: 0 <= j < |mounts| && Candidate(path, mounts[j].loc) ==> |mounts[j].loc| <= |cur|
    ensures |Cut(cur, '/')| < |cur|
  {
    if path[0] == '/' {
      assert cur[0] == '/' && |cur| >= 2;
    } else {
      var j :| 0 <= j < |mounts| && Candidate(path, mounts[j].loc);
      if |mounts[j].loc| == |cur| { SameLengthSame(path, mounts[j].loc, cur); }
      CutNext(path, cur, mounts[j].loc);
    }
  }

  /** What is left of the path after k rounds. */
  function AfterRounds(path: string, k: nat): (r: string)
    requires path != ""
    ensures r != "" && r <= path
  {
    if k == 0 then path else Cut(AfterRounds(path, k - 1), '/')
  }

  /** For a path that is not absolute and has no candidate mounted, no round ever leaves the loop. */
  lemma {:induction false} NeverEnds(mounts: seq<Mount>, path: string, k: nat)
    requires path != "" && path[0] != '/' && !Matches(mounts, path)
    ensures Candidate(path, AfterRounds(path, k)) && AfterRounds(path, k) != "/"
    ensures forall j :: 0 <= j < |mounts| ==> mounts[j].loc != AfterRounds(path, k)
  {
    if k > 0 {
      NeverEnds(mounts, path, k - 1);
      CutCandidate(path, AfterRounds(path, k - 1));
    }
    assert AfterRounds(path, k)[0] == path[0];
  }

  /** The residual path vfs_open hands to the file system: the location without its last character,
      followed by it, is the full path; it starts with a slash exactly if the location ends in one. */
  lemma ResidualPath(mounts: seq<Mount>, path: string, id: nat)
    requires path != "" && Longest(mounts, path, id)
    ensures var loc, adjust := mounts[id].loc, |mounts[id].loc| - 1;
            && adjust < |path| && loc[..adjust] + path[adjust..] == path
            && (path[adjust] == '/' <==> loc[|loc| - 1] == '/')
  {
  }

  // ---- The mount table ------------------------------------------------------------------------------

  /** Answers of the probe and mount calls of the three file systems. */
  datatype Probes = Probes(procfs: bool, procfsMounts: bool, ext2: bool, ext2Mounts: bool, dummy: bool, dummyMounts: bool)

  class Table {
    var mounts: seq<Mount>

    /** Locations are distinct and every entry has a device. */
    ghost predicate Valid()
      reads this
    {
      && |mounts| <= MAX_MOUNTS
      && (forall i :: 0 <= i < |mounts| ==> Text(mounts[i].loc) && mounts[i].dev != 0)
      && forall i, j :: 0 <= i < j < |mounts| ==> mounts[i].loc != mounts[j].loc
    }

    constructor ()
      ensures Valid() && mounts == []
    {
      mounts := [];
    }

    method CheckMount(loc: string) returns (dev: nat)
      requires Valid() && Text(loc)
      ensures dev != 0 <==> exists i :: 0 <= i < |mounts| && mounts[i].loc == loc
      ensures forall i :: 0 <= i < |mounts| && mounts[i].loc == loc ==> dev == mounts[i].dev
    {
      var i := 0;
      while i < |mounts|
        invariant 0 <= i <= |mounts|
        invariant forall j :: 0 <= j < i ==> mounts[j].loc != loc
      {
        var res := Strcmp(loc, mounts[i].loc);
        if res == 0 {
          return mounts[i].dev;
        }
        i := i + 1;
      }
      dev := 0;
    }

    /** device_try_to_mount; the table must have room, which the source does not check. */
    method TryToMount(dev: nat, loc: string, fs: Probes) returns (rc: int)
      requires Valid() && Text(loc) && |mounts| < MAX_MOUNTS
      modifies this
      ensures Valid()
      ensures rc == 0 ==> mounts == old(mounts) + [Mount(loc, dev)]
      ensures rc != 0 ==> mounts == old(mounts)
      ensures rc == if dev == 0 then -EINVAL
                    else if exists i :: 0 <= i < |old(mounts)| && old(mounts)[i].loc == loc then -ENODEV
                    else if !fs.procfs && !fs.ext2 && !fs.dummy then -ENOSYS
                    // the first file system that recognises the device decides
                    else if if fs.procfs then fs.procfsMounts else if fs.ext2 then fs.ext2Mounts else fs.dummyMounts then 0
                    else -ENODEV
    {
      if dev == 0 {
        return -EINVAL;
      }
      var taken := CheckMount(loc);
      if taken != 0 {
        return -ENODEV;
      }
      if fs.procfs {
        if fs.procfsMounts {
          mounts := mounts + [Mount(loc, dev)];
          return 0;
        }
        return -ENODEV;
      }
      if fs.ext2 {
        if fs.ext2Mounts {
          mounts := mounts + [Mount(loc, dev)];
          return 0;
        }
        return -ENODEV;
      }
      if fs.dummy {
        if fs.dummyMounts {
          mounts := mounts + [Mount(loc, dev)];
          return 0;
        }
        return -ENODEV;
      }
      rc := -ENOSYS;
    }
  }
}
