/** The list of file systems to try (config/mtk2/kernel/do_mounts.c: get_fs_names, and the walk over its result in
    mount_block_root). The list is compacted in place: reader and writer share one buffer. */
module FsNames {
  import opened Wrappers

  // ----- names in a buffer ------------------------------------------------------------------------------------

  /** Every name with a NUL behind it. */
  function Pack(names: seq<string>): string {
    if names == [] then "" else names[0] + "\0" + Pack(names[1..])
  }

  /** c is not among the first n characters. */
  predicate Absent(s: string, c: char, n: nat)
    requires n <= |s|
  {
    forall k :: 0 <= k < n ==> s[k] != c
  }

  function FirstOf(s: string, c: char): (i: nat)
    ensures i <= |s| && Absent(s, c, i) && (i < |s| ==> s[i] == c)
  {
    if s == "" || s[0] == c then 0 else FirstOf(s[1..], c) + 1
  }

  /** for (p = fs_names; *p; p += strlen(p) + 1): the names the caller sees. */
  function Walk(buffer: string): seq<string>
    decreases |buffer|
  {
    var n := FirstOf(buffer, '\0');
    if n == 0 || n == |buffer| then [] else [buffer[..n]] + Walk(buffer[n + 1..])
  }

  /** The names in front of the first empty one. */
  function UpToEmpty(names: seq<string>): seq<string> {
    if names == [] || names[0] == "" then [] else [names[0]] + UpToEmpty(names[1..])
  }

  ghost predicate NoNul(names: seq<string>) { forall i :: 0 <= i < |names| ==> '\0' !in names[i] }

  lemma FirstIs(s: string, c: char, n: nat)
    requires n < |s| && s[n] == c && Absent(s, c, n)
    ensures FirstOf(s, c) == n
  {
    hide FirstOf;
  }

  /** Whatever follows the second NUL, the walk sees the names in front of the first empty one. */
  lemma {:induction false} WalkOfPack(names: seq<string>, junk: string)
    requires NoNul(names)
    ensures Walk(Pack(names) + "\0" + junk) == UpToEmpty(names)
    decreases |names|
  {
    var b := Pack(names) + "\0" + junk;
    if names == [] {
      FirstIs(b, '\0', 0);
    } else {
      var n := |names[0]|;
      assert b == names[0] + "\0" + (Pack(names[1..]) + "\0" + junk);
      assert b[..n] == names[0] && b[n + 1..] == Pack(names[1..]) + "\0" + junk;
      FirstIs(b, '\0', n);
      WalkOfPack(names[1..], junk);
    }
  }

  lemma {:induction false} UpToEmptyIff(names: seq<string>)
    ensures UpToEmpty(names) == names <==> "" !in names
  {
    if names != [] && names[0] != "" {
      UpToEmptyIff(names[1..]);
      assert names == [names[0]] + names[1..];
    }
  }

  lemma {:induction false} PackAppend(names: seq<string>, name: string)
    ensures Pack(names + [name]) == Pack(names) + name + "\0"
  {
    if names == [] {
      assert [name][1..] == [];
      assert names + [name] == [name];
    } else {
      PackAppend(names[1..], name);
      assert (names + [name])[1..] == names[1..] + [name];
    }
  }

  // ----- the kernel's list ------------------------------------------------------------------------------------

  /** Lines end in a newline, and there is no NUL. */
  predicate WellFormed(text: string) { '\0' !in text && (text == "" || text[|text| - 1] == '\n') }

  lemma LineEnds(text: string, from: nat)
    requires WellFormed(text) && from < |text|
    ensures var n := FirstOf(text[from..], '\n');
            n < |text| - from && text[from + n] == '\n' && WellFormed(text[from + n + 1..])
  {
    var t := text[from..];
    assert t[|t| - 1] == '\n';
    hide FirstOf;
  }

  /** The name on the first line, if that line starts with a tab. */
  function LineName(text: string): seq<string> {
    var n := FirstOf(text, '\n');
    if n > 0 && text[0] == '\t' then [text[1..n]] else []
  }

  lemma FirstLine(t: string)
    requires WellFormed(t) && t != ""
    ensures var n := FirstOf(t, '\n'); n < |t| && t[n] == '\n' && WellFormed(t[n + 1..])
  {
    hide WellFormed, FirstOf, Absent;
    LineEnds(t, 0);
    assert t[0..] == t;
  }

  /** What follows the first line. */
  function Rest(text: string): (r: string)
    requires WellFormed(text) && text != ""
    ensures WellFormed(r) && |r| < |text|
  {
    FirstLine(text);
    text[FirstOf(text, '\n') + 1..]
  }

  /** The names on the lines that start with a tab. */
  function Names(text: string): seq<string>
    requires WellFormed(text)
    decreases |text|
  {
    if text == "" then [] else LineName(text) + Names(Rest(text))
  }

  /** The pieces between commas. */
  function Split(s: string): (r: seq<string>)
    ensures |r| > 0
    decreases |s|
  {
    var n := FirstOf(s, ',');
    if n == |s| then [s] else [s[..n]] + Split(s[n + 1..])
  }

  // ----- what the lists are printed from ----------------------------------------------------------------------

  /** c is not in the name. */
  predicate Without(name: string, c: char) { c !in name }

  /** A registered file system; nodev: it needs no block device. */
  datatype FileSystem = FileSystem(name: string, nodev: bool)

  function LineOf(f: FileSystem): string { (if f.nodev then "nodev" else "") + "\t" + f.name }

  /** What get_filesystem_list writes. */
  function Listing(fs: seq<FileSystem>): string {
    if fs == [] then "" else LineOf(fs[0]) + "\n" + Listing(fs[1..])
  }

  /** The file systems that can be mounted from a device, in order. */
  function OnDevices(fs: seq<FileSystem>): seq<string> {
    if fs == [] then [] else (if fs[0].nodev then [] else [fs[0].name]) + OnDevices(fs[1..])
  }

  ghost predicate Printable(fs: seq<FileSystem>) {
    forall i :: 0 <= i < |fs| ==> Without(fs[i].name, '\n') && Without(fs[i].name, '\0')
  }

  /** The names taken from the kernel's list are those of the file systems that need a device. */
  lemma {:induction false} NamesOfListing(fs: seq<FileSystem>)
    requires Printable(fs)
    ensures WellFormed(Listing(fs)) && Names(Listing(fs)) == OnDevices(fs)
  {
    hide WellFormed, Names;
    if fs == [] {
      LastOne();
    } else {
      var name, line := fs[0].name, LineOf(fs[0]);
      NamesOfListing(fs[1..]);
      assert Listing(fs) == line + "\n" + Listing(fs[1..]);
      assert Without(name, '\n') && Without(name, '\0');
      OnLine(fs[0]);
      FirstLineRead(line, Listing(fs[1..]));
    }
  }

  lemma OnLine(f: FileSystem)
    requires Without(f.name, '\n') && Without(f.name, '\0')
    ensures '\n' !in LineOf(f) && '\0' !in LineOf(f)
    ensures LineOf(f)[0] == (if f.nodev then 'n' else '\t') && (!f.nodev ==> LineOf(f)[1..] == f.name)
  {
  }

  lemma LastOne()
    ensures WellFormed("") && Names("") == []
  {
  }

  lemma FirstLineRead(line: string, rest: string)
    requires line != "" && '\n' !in line && '\0' !in line && WellFormed(rest)
    ensures var t := line + "\n" + rest;
            WellFormed(t) && Names(t) == (if line[0] == '\t' then [line[1..]] else []) + Names(rest)
  {
    var t, n := line + "\n" + rest, |line|;
    LineFirst(line, rest);
    FirstIs(t, '\n', n);
    assert t[n + 1..] == rest && t[0] == line[0] && t[1..n] == line[1..];
    hide WellFormed, FirstOf, Absent;
    FirstLine(t);
    assert Rest(t) == rest;
  }

  lemma LineFirst(line: string, rest: string)
    requires '\n' !in line && '\0' !in line && WellFormed(rest)
    ensures var t := line + "\n" + rest; WellFormed(t) && t[|line|] == '\n' && Absent(t, '\n', |line|)
  {
  }

  /** The pieces with commas between them. */
  function Joined(pieces: seq<string>): string
    requires pieces != []
  {
    if |pieces| == 1 then pieces[0] else pieces[0] + "," + Joined(pieces[1..])
  }

  lemma SplitLast(piece: string)
    requires Without(piece, ',')
    ensures Split(piece) == [piece]
  {
  }

  lemma SplitNext(piece: string, rest: string)
    requires Without(piece, ',')
    ensures Split(piece + "," + rest) == [piece] + Split(rest)
  {
    var s, n := piece + "," + rest, |piece|;
    FirstIs(s, ',', n);
    assert s[..n] == piece && s[n + 1..] == rest;
  }

  /** Splitting gives the pieces back. */
  lemma {:induction false} SplitOfJoined(pieces: seq<string>)
    requires pieces != [] && forall i :: 0 <= i < |pieces| ==> Without(pieces[i], ',')
    ensures Split(Joined(pieces)) == pieces
  {
    hide Split, Without;
    if |pieces| == 1 {
      SplitLast(pieces[0]);
    } else {
      SplitOfJoined(pieces[1..]);
      SplitNext(pieces[0], Joined(pieces[1..]));
    }
  }

  // ----- the code ---------------------------------------------------------------------------------------------

  /** Copying one line, newline included: while ((*s++ = *p++) != '\n'). The writer stays behind the reader. */
  method CopyLine(page: array<char>, s0: nat, p0: nat, ghost end: nat) returns (s: nat, p: nat)
    requires s0 <= p0 <= end < page.Length && page[end] == '\n' && forall k :: p0 <= k < end ==> page[k] != '\n'
    modifies page
    ensures s == s0 + (end + 1 - p0) && p == end + 1 && s <= p
    ensures page[..s0] == old(page[..s0]) && page[s0..s] == old(page[p0..end + 1]) && page[s..] == old(page[s..])
  {
    s, p := s0, p0;
    ghost var was := page[..];
    while page[p] != '\n'
      invariant s0 <= s && p0 <= p <= end && s - s0 == p - p0
      invariant page[..s0] == was[..s0] && page[s0..s] == was[p0..p] && page[s..] == was[s..]
      decreases end - p
    {
      s, p := CopyOne(page, s, p, was, s0);
    }
    s, p := CopyOne(page, s, p, was, s0);
  }

  /** *s++ = *p++ */
  method CopyOne(page: array<char>, s: nat, p: nat, ghost was: string, ghost s0: nat) returns (s': nat, p': nat)
    requires s0 <= s <= p < page.Length == |was| && p - s <= p - s0
    requires page[..s0] == was[..s0] && page[s0..s] == was[s0 + p - s..p] && page[s..] == was[s..]
    modifies page
    ensures s' == s + 1 && p' == p + 1
    ensures page[..s0] == was[..s0] && page[s0..s'] == was[s0 + p - s..p'] && page[s'..] == was[s'..]
  {
    assert page[p] == page[s..][p - s] == was[s..][p - s] == was[p];
    page[s] := page[p];
    s', p' := s + 1, p + 1;
    assert page[s0..s'] == page[s0..s] + [was[p]];
    assert page[s'..] == was[s..][1..];
  }

  /** strchr for a newline in the C string at `from`. */
  method StrChr(page: array<char>, from: nat, ghost len: nat) returns (next: Option<nat>)
    requires from <= len < page.Length && page[len] == '\0' && '\0' !in page[from..len]
    ensures var n := FirstOf(page[from..len], '\n'); next == if n < len - from then Some(from + n) else None
  {
    hide FirstOf;
    var i := from;
    assert forall k :: from <= k < len ==> page[k] == page[from..len][k - from];
    while page[i] != '\0'
      invariant from <= i <= len && forall k :: 0 <= k < i - from ==> page[from..len][k] != '\n'
      decreases len - i
    {
      if page[i] == '\n' {
        FirstIs(page[from..len], '\n', i - from);
        return Some(i);
      }
      i := i + 1;
    }
    return None;
  }

  lemma PackedLine(t: string)
    requires FirstOf(t, '\n') < |t|
    ensures Pack(LineName(t)) == if t[0] == '\t' then t[1..FirstOf(t, '\n')] + "\0" else ""
  {
    hide FirstOf, Absent;
    var n := FirstOf(t, '\n');
    if t[0] == '\t' {
      PackCons(t[1..n], []);
      assert [t[1..n]] + [] == [t[1..n]] && t[1..n] + "\0" + "" == t[1..n] + "\0";
    }
  }

  /** The line as it lies in the page. */
  lemma LineInPage(page: string, l: nat, next: nat, len: nat, t: string)
    requires l <= next < len <= |page| && page[l..len] == t && next - l == FirstOf(t, '\n') < |t|
    ensures page[l] == t[0] && page[next] == '\n' && (forall k :: l <= k < next ==> page[k] != '\n')
    ensures page[next + 1..len] == t[next + 1 - l..] && (l < next ==> page[l + 1..next] == t[1..next - l])
  {
    hide FirstOf;
    assert forall k :: l <= k < len ==> page[k] == page[l..len][k - l] == t[k - l];
  }

  /** One line of the kernel's list: its name goes to the writer's place if it starts with a tab. The unread rest t
      of the list loses that line. */
  method OneLine(page: array<char>, s0: nat, l: nat, next: nat, ghost len: nat, ghost t: string) returns (s: nat)
    requires s0 <= l <= next < len < page.Length && page[l..len] == t && page[len] == '\0'
    requires next - l == FirstOf(t, '\n') < |t|
    modifies page
    ensures s0 <= s <= next && page[len] == '\0' && page[next + 1..len] == t[next + 1 - l..]
    ensures page[..s] == old(page[..s0]) + Pack(LineName(t))
  {
    hide FirstOf, Pack, LineName;
    PackedLine(t);
    LineInPage(page[..], l, next, len, t);
    hide Absent;
    s := s0;
    if page[l] == '\t' {
      s := MoveLine(page, s0, l + 1, next);
      assert page[next + 1..len] == page[next + 1..][..len - next - 1];
      assert page[next + 1..][len - next - 1] == '\0';
    } else {
      assert page[..s] == old(page[..s0]) + "";
    }
  }

  /** The name goes to the writer's place, and its newline becomes a NUL. */
  method MoveLine(page: array<char>, s0: nat, p: nat, ghost end: nat) returns (s: nat)
    requires s0 < p <= end < page.Length && page[end] == '\n' && forall k :: p <= k < end ==> page[k] != '\n'
    modifies page
    ensures s == s0 + (end + 1 - p) && page[end + 1..] == old(page[end + 1..])
    ensures page[..s] == old(page[..s0]) + old(page[p..end]) + "\0"
  {
    ghost var q: nat;
    s, q := CopyLine(page, s0, p, end);
    assert page[end + 1..] == page[s..][end + 1 - s..] == old(page[s..])[end + 1 - s..];
    assert page[s0..s - 1] == page[s0..s][..s - 1 - s0] == old(page[p..end]);
    page[s - 1] := '\0';
    assert page[..s] == page[..s0] + page[s0..s - 1] + [page[s - 1]];
  }

  /** The list shrinks by its first line, and the packed names grow by that line's. */
  method TakeLine(page: array<char>, s0: nat, l: nat, next: nat, ghost len: nat, ghost t: string,
                  ghost done: seq<string>)
    returns (s: nat)
    requires s0 <= l <= next < len < page.Length && page[l..len] == t && page[len] == '\0'
    requires WellFormed(t) && t != "" && next - l == FirstOf(t, '\n') && page[..s0] == Pack(done)
    modifies page
    ensures s <= next && page[len] == '\0' && page[next + 1..len] == Rest(t)
    ensures page[..s] == Pack(done + LineName(t)) && done + Names(t) == (done + LineName(t)) + Names(Rest(t))
  {
    hide *;
    NextLine(t);
    RestIs(t);
    s := OneLine(page, s0, l, next, len, t);
    PackJoin(done, LineName(t)) by { LineNameShort(t); }
    Regroup(done, LineName(t), Names(Rest(t)));
  }

  lemma LineNameShort(t: string)
    ensures |LineName(t)| <= 1
  {
  }

  /** The branch of get_fs_names without a rootfstype: compaction of the kernel's list, which `page` holds. */
  method Compact(page: array<char>, ghost list: string, len: nat) returns (s: nat)
    requires len == |list| < page.Length && page[..len] == list && page[len] == '\0' && WellFormed(list)
    modifies page
    ensures s <= len && page[..s] == Pack(Names(list))
  {
    hide *;
    s := 0;
    var l := 0;
    ghost var done, t := [], list;
    assert page[0..len] == list && page[..0] == Pack([]) by { PackNone(); }
    while true
      invariant s <= l <= len == l + |t| && page[..s] == Pack(done)
      invariant page[l..len] == t && page[len] == '\0'
      invariant WellFormed(t) && done + Names(t) == Names(list)
      decreases len - l
    {
      LastLine(t);
      var next := StrChr(page, l, len);
      if t != "" { NextLine(t); }
      if next.None? { break; }
      s := TakeLine(page, s, l, next.value, len, t, done);
      done := done + LineName(t);
      t := Rest(t);
      l := next.value + 1;
    }
    Regroup(done, [], []);
  }

  lemma LastLine(t: string)
    requires WellFormed(t)
    ensures '\0' !in t && (t == "" ==> Names(t) == [])
  {
  }

  lemma Regroup(a: seq<string>, b: seq<string>, c: seq<string>)
    ensures a + (b + c) == (a + b) + c && a + [] == a
  {
  }

  lemma PackNone()
    ensures Pack([]) == ""
  {
  }

  lemma RestIs(t: string)
    requires WellFormed(t) && t != ""
    ensures FirstOf(t, '\n') < |t| && Rest(t) == t[FirstOf(t, '\n') + 1..]
  {
    hide WellFormed, FirstOf, Absent, Names, LineName;
    FirstLine(t);
  }

  lemma NamesStep(t: string)
    requires WellFormed(t) && t != ""
    ensures Names(t) == LineName(t) + Names(Rest(t))
  {
    hide WellFormed, FirstOf, Absent, LineName, Rest;
  }

  lemma NextLine(t: string)
    requires WellFormed(t) && t != ""
    ensures var n := FirstOf(t, '\n'); n < |t| && WellFormed(t[n + 1..]) && Names(t) == LineName(t) + Names(t[n + 1..])
  {
    hide *;
    RestIs(t);
    NamesStep(t);
  }

  lemma PackJoin(done: seq<string>, more: seq<string>)
    requires |more| <= 1
    ensures Pack(done + more) == Pack(done) + Pack(more)
  {
    if more == [] {
      assert done + more == done;
    } else {
      PackAppend(done, more[0]);
      assert more == [more[0]] && more[1..] == [];
    }
  }

  // ----- the rootfstype branch --------------------------------------------------------------------------------

  function Commas(v: string): string { seq(|v|, i requires 0 <= i < |v| => if v[i] == ',' then '\0' else v[i]) }

  lemma CommasCut(v: string, n: nat)
    requires n < |v| && v[n] == ',' && Absent(v, ',', n)
    ensures Commas(v) == v[..n] + "\0" + Commas(v[n + 1..])
  {
  }

  lemma PackCons(name: string, rest: seq<string>)
    ensures Pack([name] + rest) == name + "\0" + Pack(rest)
  {
    assert ([name] + rest)[1..] == rest;
  }

  /** NULs in place of the commas, and one at the end, pack the pieces. */
  lemma {:induction false} PackOfSplit(v: string)
    ensures Pack(Split(v)) == Commas(v) + "\0"
    decreases |v|
  {
    hide Pack, FirstOf;
    var n := FirstOf(v, ',');
    if n == |v| {
      assert Commas(v) == v && [v] + [] == [v];
      PackCons(v, []);
      PackNone();
      assert v + "\0" + "" == v + "\0";
    } else {
      PackOfSplit(v[n + 1..]);
      CommasCut(v, n);
      PackCons(v[..n], Split(v[n + 1..]));
      hide Commas, Absent;
    }
  }

  /** The branch of get_fs_names with a rootfstype, which `page` holds. */
  method SplitInPlace(page: array<char>, ghost v: string) returns (s: nat)
    requires |v| < page.Length && page[..|v|] == v && page[|v|] == '\0' && '\0' !in v
    modifies page
    ensures s == |v| + 1 && page[..s] == Pack(Split(v))
  {
    PackOfSplit(v);
    hide Pack, Split;
    s := 0;
    assert forall i :: 0 <= i < |v| ==> page[i] == page[..|v|][i] == v[i];
    while page[s] != '\0'
      invariant s <= |v| && page[|v|] == '\0'
      invariant forall i :: 0 <= i < s ==> page[i] == Commas(v)[i]
      invariant forall i :: s <= i < |v| ==> page[i] == v[i]
      decreases |v| - s
    {
      s := s + 1;
      if page[s - 1] == ',' { page[s - 1] := '\0'; }
    }
    assert s == |v|;
    s := s + 1;
    assert page[..s] == Commas(v) + "\0";
  }

  lemma {:induction false} SplitNoNul(v: string)
    requires '\0' !in v
    ensures NoNul(Split(v))
    decreases |v|
  {
    var n := FirstOf(v, ',');
    if n < |v| { SplitNoNul(v[n + 1..]); }
  }

  lemma LineNameNoNul(t: string)
    requires '\0' !in t
    ensures NoNul(LineName(t))
  {
    hide FirstOf, Absent;
  }

  lemma NoNulAdd(a: seq<string>, b: seq<string>)
    requires NoNul(a) && NoNul(b)
    ensures NoNul(a + b)
  {
  }

  lemma {:induction false} NamesNoNul(text: string)
    requires WellFormed(text)
    ensures NoNul(Names(text))
    decreases |text|
  {
    LastLine(text);
    hide WellFormed, LineName, FirstOf, Absent, NoNul, Rest;
    if text == "" {
      NoNulNothing();
    } else {
      LineNameNoNul(text);
      NamesNoNul(Rest(text));
      NoNulAdd(LineName(text), Names(Rest(text)));
    }
  }

  lemma NoNulNothing()
    ensures NoNul([])
  {
  }

  /** get_fs_names. `list` is what get_filesystem_list writes. The buffer then packs exactly the names on the tab-led
      lines, or the pieces of rootfstype, and the caller's walk sees them up to the first empty one: all of them,
      if and only if none is empty (UpToEmptyIff). */
  method GetFsNames(page: array<char>, rootFsNames: Option<string>, list: string) returns (ghost names: seq<string>)
    requires rootFsNames.Some? ==> '\0' !in rootFsNames.value && |rootFsNames.value| + 1 < page.Length
    requires rootFsNames.None? ==> WellFormed(list) && |list| < page.Length
    modifies page
    ensures names == if rootFsNames.Some? then Split(rootFsNames.value) else Names(list)
    ensures |Pack(names)| < page.Length && page[..|Pack(names)| + 1] == Pack(names) + "\0"
    ensures Walk(page[..]) == UpToEmpty(names)
  {
    hide Pack, Split, Names, Walk, UpToEmpty;
    var s: nat;
    if rootFsNames.Some? {
      var v := rootFsNames.value;
      forall i | 0 <= i < |v| { page[i] := v[i]; }
      page[|v|] := '\0';
      assert page[..|v|] == v;
      s := SplitInPlace(page, v);
      names := Split(v);
      SplitNoNul(v);
    } else {
      forall i | 0 <= i < |list| { page[i] := list[i]; }
      page[|list|] := '\0';
      assert page[..|list|] == list;
      s := Compact(page, list, |list|);
      names := Names(list);
      NamesNoNul(list);
    }
    ghost var packed := page[..s];
    page[s] := '\0';
    assert page[..s] == packed;
    assert page[..s + 1] == packed + "\0";
    assert page[..] == Pack(names) + "\0" + page[s + 1..];
    WalkOfPack(names, page[s + 1..]);
  }
}
