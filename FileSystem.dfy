/** The file system as the converter sees it: a map from path to the file's
    bytes. Operations that touch files take a disk and return the new one. */
module FileSystem {
  import opened Strings

  type byte = b: int | 0 <= b < 256

  type Disk = map<string, seq<byte>>

  /** The disk after a call that leaves `path` holding `content`, or absent. */
  function SetFile(disk: Disk, path: string, content: Option<seq<byte>>): (d: Disk)
    ensures content.Some? ==> path in d && d[path] == content.value
    ensures content.None? ==> path !in d
    ensures forall p :: p != path ==> (p in d <==> p in disk) && (p in d ==> d[p] == disk[p])
  {
    match content
    case Some(c) => disk[path := c]
    case None => disk - {path}
  }

  /** `os.remove` guarded by `os.path.exists`: removing an absent path does nothing. */
  function RemoveIfExists(disk: Disk, path: string): (d: Disk)
    ensures path !in d
    ensures forall p :: p != path ==> (p in d <==> p in disk) && (p in d ==> d[p] == disk[p])
  {
    disk - {path}
  }

  /** `for f in paths: if os.path.exists(f): os.remove(f)`. */
  function RemoveAll(disk: Disk, paths: seq<string>): (d: Disk)
    ensures forall p :: p in d <==> p in disk && p !in paths
    ensures forall p :: p in d ==> d[p] == disk[p]
  {
    if paths == [] then disk else RemoveAll(RemoveIfExists(disk, paths[0]), paths[1..])
  }

  /** The removal loop, one path after the other. */
  method RemovePaths(disk: Disk, paths: seq<string>) returns (d: Disk)
    ensures d == RemoveAll(disk, paths)
  {
    d := disk;
    var i := 0;
    while i < |paths|
      invariant i <= |paths| && RemoveAll(d, paths[i..]) == RemoveAll(disk, paths)
    {
      assert paths[i..][0] == paths[i] && paths[i..][1..] == paths[i + 1..];
      if paths[i] in d {
        d := RemoveIfExists(d, paths[i]);
      } else {
        assert RemoveIfExists(d, paths[i]) == d;
      }
      i := i + 1;
    }
    assert paths[i..] == [];
  }

  /** Two disks agree everywhere except, perhaps, at the given paths. */
  ghost predicate AgreeOutside(a: Disk, b: Disk, paths: set<string>)
  {
    forall p :: p !in paths ==> (p in a <==> p in b) && (p in a ==> a[p] == b[p])
  }

  /** Two changes that each keep to the paths in `paths` together keep to them. */
  lemma {:induction false} AgreeTrans(a: Disk, b: Disk, c: Disk, paths: set<string>)
    requires AgreeOutside(a, b, paths) && AgreeOutside(b, c, paths)
    ensures AgreeOutside(a, c, paths)
  {
  }

  /** A change that keeps to some paths keeps to any set holding them. */
  lemma AgreeWiden(a: Disk, b: Disk, small: set<string>, big: set<string>)
    requires AgreeOutside(a, b, small) && small <= big
    ensures AgreeOutside(a, b, big)
  {
  }

  /** Setting a file keeps to any set of paths holding it. */
  lemma {:induction false} SetFileAgrees(disk: Disk, path: string, content: Option<seq<byte>>, paths: set<string>)
    requires path in paths
    ensures AgreeOutside(disk, SetFile(disk, path, content), paths)
  {
  }

  /** What an external program (ffmpeg) does to the disk: its exit status
      and what its output path holds once it has finished. */
  datatype ToolRun = ToolRun(ok: bool, output: Option<seq<byte>>)

  /** Whether every character of the text is ASCII. */
  predicate IsAscii(s: string)
  {
    forall i :: 0 <= i < |s| ==> s[i] as int < 128
  }

  /** The UTF-8 encoding of one character. */
  function Utf8Char(c: char): (b: seq<byte>)
    ensures 1 <= |b| <= 4
    ensures (c as int < 128) == (|b| == 1)
  {
    var v := c as int;
    if v < 0x80 then [v]
    else if v < 0x800 then [0xC0 + v / 0x40, 0x80 + v % 0x40]
    else if v < 0x1_0000 then [0xE0 + v / 0x1000, 0x80 + (v / 0x40) % 0x40, 0x80 + v % 0x40]
    else [0xF0 + v / 0x4_0000, 0x80 + (v / 0x1000) % 0x40, 0x80 + (v / 0x40) % 0x40, 0x80 + v % 0x40]
  }

  /** The bytes a text-mode write stores for a text (UTF-8 locale). */
  function Utf8(s: string): (b: seq<byte>)
    ensures |b| >= |s|
  {
    if s == [] then [] else Utf8Char(s[0]) + Utf8(s[1..])
  }

  /** An ASCII text is stored one byte per character, with the character's code. */
  lemma {:induction false} Utf8Ascii(s: string)
    requires IsAscii(s)
    ensures |Utf8(s)| == |s|
    ensures forall i :: 0 <= i < |s| ==> Utf8(s)[i] == s[i] as int
  {
    if s != [] {
      Utf8Ascii(s[1..]);
      forall i | 0 <= i < |s| ensures Utf8(s)[i] == s[i] as int {
        if i > 0 { assert s[1..][i - 1] == s[i]; }
      }
    }
  }

  /** Bytes read back in text mode. Only ASCII is decoded; anything else is
      treated as a decoding failure. */
  function AsciiText(b: seq<byte>): (r: Option<string>)
    ensures r.Some? <==> forall i :: 0 <= i < |b| ==> b[i] < 128
    ensures r.Some? ==> |r.value| == |b| && forall i :: 0 <= i < |b| ==> r.value[i] as int == b[i]
  {
    if forall i :: 0 <= i < |b| ==> b[i] < 128 then
      Some(seq(|b|, i requires 0 <= i < |b| => b[i] as char))
    else None
  }

  /** Writing an ASCII text and reading it back gives the text. */
  lemma {:induction false} AsciiRoundTrip(s: string)
    requires IsAscii(s)
    ensures AsciiText(Utf8(s)) == Some(s)
  {
    Utf8Ascii(s);
    var r := AsciiText(Utf8(s));
    assert r.Some?;
    assert r.value == s;
  }

  // ---------------------------------------------------------------------------
  // os.path, POSIX flavour

  /** Position of the last `c` in `s`, or -1 (`str.rfind`). */
  function RFindChar(s: string, c: char): (r: int)
    ensures -1 <= r < |s|
    ensures r >= 0 ==> s[r] == c
    ensures forall i :: r < i < |s| ==> s[i] != c
  {
    if s == [] then -1
    else if s[|s| - 1] == c then |s| - 1
    else RFindChar(s[..|s| - 1], c)
  }

  /** `s.rstrip(c)` for a single character. */
  function RStripChar(s: string, c: char): (r: string)
    ensures |r| <= |s| && r == s[..|r|]
    ensures r == [] || r[|r| - 1] != c
    ensures forall i :: |r| <= i < |s| ==> s[i] == c
  {
    if s != [] && s[|s| - 1] == c then RStripChar(s[..|s| - 1], c) else s
  }

  /** `os.path.dirname`: everything up to the last '/', without trailing
      slashes unless it is made of slashes only. */
  function Dirname(p: string): string
  {
    var head := p[..RFindChar(p, '/') + 1];
    if head != [] && RStripChar(head, '/') != [] then RStripChar(head, '/') else head
  }

  /** What `os.path.join(a, b)` puts before `b`: nothing when `b` is
      absolute, `a` when it is empty or ends in '/', `a + "/"` otherwise. */
  function JoinPrefix(a: string, rooted: bool): string
  {
    if rooted then [] else if a == [] || EndsWith(a, "/") then a else a + "/"
  }

  /** `os.path.splitext`: the extension runs from the last '.' of the last
      path component, provided that component has a character other than
      '.' before it; otherwise the extension is empty. */
  function SplitExt(p: string): (r: (string, string))
    ensures r.0 + r.1 == p
    ensures r.1 == [] || (r.1[0] == '.' && forall i :: 1 <= i < |r.1| ==> r.1[i] != '.' && r.1[i] != '/')
  {
    var sep := RFindChar(p, '/');
    var dot := RFindChar(p, '.');
    if dot > sep && exists k :: sep < k < dot && p[k] != '.' then (p[..dot], p[dot..]) else (p, [])
  }

  /** The last `c` is the one with no `c` after it. */
  lemma {:induction false} RFindCharAt(s: string, c: char, k: int)
    requires -1 <= k < |s| && (k >= 0 ==> s[k] == c)
    requires forall i :: k < i < |s| ==> s[i] != c
    ensures RFindChar(s, c) == k
  {
  }

  /** Inserting a piece without '.' or '/' between a path's stem and its
      extension keeps that extension: the piece joins the stem. */
  lemma {:induction false} SplitExtInsert(p: string, w: string)
    requires forall i :: 0 <= i < |w| ==> w[i] != '.' && w[i] != '/'
    ensures var (b, e) := SplitExt(p);
      SplitExt(b + w + e) == (b + w, e)
  {
    if SplitExt(p).1 != [] {
      SplitExtInsertExt(p, w);
    } else {
      SplitExtInsertNoExt(p, w);
    }
  }

  lemma {:induction false} SplitExtInsertExt(p: string, w: string)
    requires forall i :: 0 <= i < |w| ==> w[i] != '.' && w[i] != '/'
    requires SplitExt(p).1 != []
    ensures var (b, e) := SplitExt(p);
      SplitExt(b + w + e) == (b + w, e)
  {
    var (b, e) := SplitExt(p);
    var q := b + w + e;
    var sep := RFindChar(p, '/');
    var dot := RFindChar(p, '.');
    assert dot > sep && exists k :: sep < k < dot && p[k] != '.';
    assert dot == |b|;
    var k :| sep < k < dot && p[k] != '.';
    RFindCharAt(q, '.', |b| + |w|);
    forall i | sep < i < |q| ensures q[i] != '/' {
      if i < |b| {
        assert q[i] == p[i];
      } else if i >= |b| + |w| {
        assert q[i] == e[i - |b| - |w|];
      }
    }
    if sep >= 0 {
      assert q[sep] == p[sep];
    }
    RFindCharAt(q, '/', sep);
    assert q[k] == p[k];
    assert q[..|b| + |w|] == b + w;
  }

  lemma {:induction false} SplitExtInsertNoExt(p: string, w: string)
    requires forall i :: 0 <= i < |w| ==> w[i] != '.' && w[i] != '/'
    requires SplitExt(p).1 == []
    ensures SplitExt(p + w) == (p + w, [])
  {
    var q := p + w;
    var sep := RFindChar(p, '/');
    var dot := RFindChar(p, '.');
    forall i | dot < i < |q| ensures q[i] != '.' {
      if i < |p| {
        assert q[i] == p[i];
      }
    }
    if dot >= 0 {
      assert q[dot] == p[dot];
    }
    RFindCharAt(q, '.', dot);
    forall i | sep < i < |q| ensures q[i] != '/' {
      if i < |p| {
        assert q[i] == p[i];
      }
    }
    if sep >= 0 {
      assert q[sep] == p[sep];
    }
    RFindCharAt(q, '/', sep);
    assert forall k :: sep < k < dot ==> q[k] == p[k];
  }

  /** `os.path.join(a, b)` for two components. */
  function JoinPath(a: string, b: string): string
  {
    JoinPrefix(a, StartsWith(b, "/")) + b
  }

  /** Joining onto the same directory keeps names apart, for names that
      are both absolute or both relative. */
  lemma {:induction false} JoinPathInjective(a: string, b1: string, b2: string)
    requires StartsWith(b1, "/") == StartsWith(b2, "/")
    requires JoinPath(a, b1) == JoinPath(a, b2)
    ensures b1 == b2
  {
    var p := JoinPrefix(a, StartsWith(b1, "/"));
    assert JoinPath(a, b1)[|p|..] == b1;
    assert JoinPath(a, b2)[|p|..] == b2;
  }

  /** Names made of the same stem and a tail that does not start with '/'
      are both absolute or both relative. */
  lemma {:induction false} SameRootedness(stem: string, t1: string, t2: string)
    requires t1 != [] && t2 != [] && t1[0] != '/' && t2[0] != '/'
    ensures StartsWith(stem + t1, "/") == StartsWith(stem + t2, "/")
  {
    if stem == [] {
      assert (stem + t1)[0] == t1[0] && (stem + t2)[0] == t2[0];
    } else {
      assert (stem + t1)[0] == stem[0] && (stem + t2)[0] == stem[0];
    }
  }

  /** Concatenation of several files' bytes, in list order. */
  function ConcatBytes(parts: seq<seq<byte>>): seq<byte>
  {
    if parts == [] then [] else parts[0] + ConcatBytes(parts[1..])
  }

  lemma {:induction false} ConcatBytesAppend(a: seq<seq<byte>>, b: seq<seq<byte>>)
    ensures ConcatBytes(a + b) == ConcatBytes(a) + ConcatBytes(b)
  {
    if a == [] {
      assert a + b == b;
    } else {
      assert (a + b)[1..] == a[1..] + b;
      ConcatBytesAppend(a[1..], b);
    }
  }
}
