/** The 8.3 names of directory entries and the names users type. */
module FatNames {
  import opened Common

  const SPACE: Byte := 0x20
  const DOT: Byte := 0x2E

  predicate Lower(c: Byte) {
    0x61 <= c <= 0x7A
  }

  function Upper(c: Byte): (r: Byte)
    ensures !Lower(r)
  {
    if Lower(c) then c - 32 else c
  }

  function UpperAll(s: seq<Byte>): (r: seq<Byte>)
    ensures |r| == |s|
  {
    seq(|s|, i requires 0 <= i < |s| => Upper(s[i]))
  }

  /** At most `n` characters of `s`, filled with spaces. */
  function Padded(s: seq<Byte>, n: nat): (r: seq<Byte>)
    ensures |r| == n
  {
    seq(n, i requires 0 <= i < n => if i < |s| then s[i] else SPACE)
  }

  /** Index of the first dot, or the length. */
  function FirstDot(s: seq<Byte>): (d: nat)
    ensures d <= |s| && (d < |s| ==> s[d] == DOT) && forall i | 0 <= i < d :: s[i] != DOT
  {
    if s == [] || s[0] == DOT then 0 else 1 + FirstDot(s[1..])
  }

  function Stem(s: seq<Byte>): seq<Byte> {
    s[..FirstDot(s)]
  }

  function Extension(s: seq<Byte>): seq<Byte> {
    if FirstDot(s) < |s| then s[FirstDot(s) + 1..] else []
  }

  /** The 11 bytes a name stands for: stem and extension cut to 8 and 3, upper case, filled with spaces. */
  function Packed(s: seq<Byte>): (r: seq<Byte>)
    ensures |r| == 11
  {
    Padded(UpperAll(Stem(s)), 8) + Padded(UpperAll(Extension(s)), 3)
  }

  lemma PaddedAt(t: seq<Byte>, n: nat, k: nat)
    requires k < n
    ensures Padded(UpperAll(t), n)[k] == if k < |t| then Upper(t[k]) else SPACE
  {
  }

  /** Character by character. */
  lemma PackedAt(s: seq<Byte>, k: nat)
    requires k < 11
    ensures k < 8 ==> Packed(s)[k] == if k < FirstDot(s) then Upper(s[k]) else SPACE
    ensures 8 <= k ==>
      Packed(s)[k] == if FirstDot(s) + 1 + (k - 8) < |s| then Upper(s[FirstDot(s) + 1 + (k - 8)]) else SPACE
  {
    hide FirstDot, Upper, Padded, UpperAll;
    if k < 8 {
      PaddedAt(Stem(s), 8, k);
    } else {
      PaddedAt(Extension(s), 3, k - 8);
    }
  }

  /** `to_fat83` of a C string without its terminator. */
  method ToFat83(input: seq<Byte>) returns (out: seq<Byte>)
    requires 0 !in input
    ensures out == Packed(input)
  {
    hide Packed, Stem, Extension, Padded, UpperAll, Upper, FirstDot;
    var buf := new Byte[11](_ => SPACE);
    var stem, i := CopyStem(input, buf);
    while i < |input| && input[i] != DOT
      invariant i <= FirstDot(input)
      decreases |input| - i
    {
      i := i + 1;
    }
    assert i == FirstDot(input);
    if i < |input| && input[i] == DOT {
      i := i + 1;
    }
    CopyExtension(input, i, buf);
    out := buf[..];
    forall k | 0 <= k < 11
      ensures out[k] == Packed(input)[k]
    {
      PackedAt(input, k);
    }
  }

  /** Up to 8 characters before a dot. */
  method CopyStem(input: seq<Byte>, buf: array<Byte>) returns (pos: nat, i: nat)
    requires buf.Length == 11
    modifies buf
    ensures pos <= 8 && i <= FirstDot(input)
    ensures forall k | 0 <= k < 11 :: buf[k] == if k < 8 && k < FirstDot(input) then Upper(input[k]) else old(buf[k])
  {
    pos, i := 0, 0;
    while i < |input| && input[i] != DOT && pos < 8
      invariant i == pos <= 8 && i <= FirstDot(input)
      invariant forall k | 0 <= k < 11 :: buf[k] == if k < pos then Upper(input[k]) else old(buf[k])
    {
      buf[pos] := Upper(input[i]);
      pos := pos + 1;
      i := i + 1;
    }
  }

  /** Up to 3 characters from `start`. */
  method CopyExtension(input: seq<Byte>, start: nat, buf: array<Byte>)
    requires buf.Length == 11 && start <= |input|
    modifies buf
    ensures forall k | 0 <= k < 11 ::
      buf[k] == if 8 <= k && start + (k - 8) < |input| then Upper(input[start + (k - 8)]) else old(buf[k])
  {
    var i, pos := start, 8;
    while i < |input| && pos < 11
      invariant 8 <= pos <= 11 && i == start + (pos - 8) && i <= |input|
      invariant forall k | 0 <= k < 11 :: buf[k] == if 8 <= k < pos then Upper(input[start + (k - 8)]) else old(buf[k])
    {
      buf[pos] := Upper(input[i]);
      pos := pos + 1;
      i := i + 1;
    }
  }

  /** The characters of `s` that are no spaces, in order. */
  function NoSpaces(s: seq<Byte>): (r: seq<Byte>)
    ensures |r| <= |s|
    ensures forall c | c in r :: c in s && c != SPACE
  {
    if s == [] then [] else NoSpaces(s[..|s| - 1]) + (if s[|s| - 1] != SPACE then [s[|s| - 1]] else [])
  }

  /** A string as C sees it. */
  function CString(s: seq<Byte>): (r: seq<Byte>)
    ensures |r| <= |s| && r == s[..|r|] && 0 !in r && (|r| < |s| ==> s[|r|] == 0)
  {
    if s == [] || s[0] == 0 then [] else [s[0]] + CString(s[1..])
  }

  /** The name shown for an entry. */
  function Shown(name: seq<Byte>, ext: seq<Byte>): seq<Byte>
    requires |ext| == 3
  {
    NoSpaces(name) + (if ext[0] != SPACE then [DOT] + NoSpaces(ext) else [])
  }

  /** `fat83_to_str`, without the terminator it adds. */
  method Fat83ToStr(name: seq<Byte>, ext: seq<Byte>) returns (out: seq<Byte>)
    requires |name| == 8 && |ext| == 3
    ensures out == Shown(name, ext) && |out| < 13
  {
    hide CString, Upper;
    var buf := new Byte[13](_ => 0);
    var pos := 0;
    for i := 0 to 8
      invariant pos <= i && buf[..pos] == NoSpaces(name[..i])
    {
      assert name[..i + 1][..i] == name[..i];
      if name[i] != SPACE {
        buf[pos] := name[i];
        pos := pos + 1;
      }
    }
    assert name[..8] == name;
    if ext[0] != SPACE {
      buf[pos] := DOT;
      pos := pos + 1;
      ghost var start := pos;
      for i := 0 to 3
        invariant start <= pos <= start + i && buf[..pos] == NoSpaces(name) + [DOT] + NoSpaces(ext[..i])
      {
        assert ext[..i + 1][..i] == ext[..i];
        if ext[i] != SPACE {
          buf[pos] := ext[i];
          pos := pos + 1;
        }
      }
      assert ext[..3] == ext;
    }
    buf[pos] := 0;
    out := buf[..pos];
  }

  /** Spaces only at the end. */
  ghost predicate Trimmed(s: seq<Byte>) {
    forall i, j | 0 <= i < j < |s| && s[i] == SPACE :: s[j] == SPACE
  }

  /** A well-formed name: no dot, terminator or lower case in it, and spaces only at the ends of the two parts. */
  ghost predicate Valid83(name: seq<Byte>, ext: seq<Byte>) {
    && Trimmed(name) && Trimmed(ext)
    && (forall c | c in name :: c != DOT && c != 0 && !Lower(c))
    && (forall c | c in ext :: c != 0 && !Lower(c))
  }

  /** Removing spaces and filling up again is nothing exactly if they were at the end. */
  lemma {:induction false} Refilled(s: seq<Byte>)
    ensures Padded(NoSpaces(s), |s|) == s <==> Trimmed(s)
  {
    if s != [] {
      var n := |s| - 1;
      Refilled(s[..n]);
      var r := NoSpaces(s[..n]);
      if Padded(NoSpaces(s), |s|) == s {
        PaddedTrimmed(NoSpaces(s), |s|);
      }
      if Trimmed(s) {
        assert Trimmed(s[..n]);
        assert Padded(r, n) == s[..n];
        if s[n] != SPACE {
          assert forall i | 0 <= i < |s| :: s[i] != SPACE;
          AllKept(s);
        } else {
          assert Padded(r, |s|) == s;
        }
      }
    }
  }

  lemma PaddedTrimmed(s: seq<Byte>, n: nat)
    requires SPACE !in s
    ensures Trimmed(Padded(s, n))
  {
  }

  lemma {:induction false} AllKept(s: seq<Byte>)
    requires SPACE !in s
    ensures NoSpaces(s) == s
  {
    if s != [] {
      assert SPACE !in s[..|s| - 1];
      AllKept(s[..|s| - 1]);
    }
  }

  ghost predicate CleanName(name: seq<Byte>, ext: seq<Byte>) {
    && (forall c | c in name :: c != DOT && c != 0 && !Lower(c))
    && (forall c | c in ext :: c != 0 && !Lower(c))
  }

  /** Packed names are clean. */
  lemma PackedClean(s: seq<Byte>, name: seq<Byte>, ext: seq<Byte>)
    requires 0 !in s && |name| == 8 && |ext| == 3 && Packed(s) == name + ext
    ensures CleanName(name, ext)
  {
    hide Packed, FirstDot;
    forall k | 0 <= k < 8
      ensures name[k] != DOT && name[k] != 0 && !Lower(name[k])
    {
      PackedAt(s, k);
      assert name[k] == (name + ext)[k];
    }
    forall k | 0 <= k < 3
      ensures ext[k] != 0 && !Lower(ext[k])
    {
      PackedAt(s, k + 8);
      assert ext[k] == (name + ext)[k + 8];
    }
  }

  lemma {:induction false} NoZero(s: seq<Byte>)
    requires 0 !in s
    ensures CString(s) == s
  {
  }

  lemma DotAt(a: seq<Byte>, b: seq<Byte>)
    requires DOT !in a && (b == [] || b[0] == DOT)
    ensures FirstDot(a + b) == |a| && Stem(a + b) == a && Extension(a + b) == (if b == [] then [] else b[1..])
  {
    hide FirstDot;
    var s := a + b;
    assert forall i | 0 <= i < |a| :: s[i] == a[i];
    assert b != [] ==> s[|a|] == DOT;
    assert b == [] ==> s == a;
  }

  lemma NothingLower(s: seq<Byte>)
    requires forall c | c in s :: !Lower(c)
    ensures UpperAll(s) == s
  {
  }

  /** A clean name is shown whole, and packs to its parts filled up again. */
  lemma CleanPacked(name: seq<Byte>, ext: seq<Byte>)
    requires |ext| == 3 && CleanName(name, ext)
    ensures CString(Shown(name, ext)) == Shown(name, ext)
    ensures Packed(Shown(name, ext)) == Padded(NoSpaces(name), 8) +
      Padded(if ext[0] != SPACE then NoSpaces(ext) else [], 3)
  {
    hide FirstDot, Padded, Stem, Extension, NoSpaces, UpperAll;
    var tail := if ext[0] != SPACE then [DOT] + NoSpaces(ext) else [];
    NoZero(Shown(name, ext));
    DotAt(NoSpaces(name), tail);
    assert tail != [] ==> tail[1..] == NoSpaces(ext);
    NothingLower(NoSpaces(name));
    NothingLower(if tail == [] then [] else NoSpaces(ext));
  }

  /** What is shown for an entry opens it again exactly if its name is well formed. */
  lemma RoundTrip(name: seq<Byte>, ext: seq<Byte>)
    requires |name| == 8 && |ext| == 3
    ensures Packed(CString(Shown(name, ext))) == name + ext <==> Valid83(name, ext)
  {
    hide Packed, Shown, CString, NoSpaces;
    var s := CString(Shown(name, ext));
    if Packed(s) == name + ext {
      PackedClean(s, name, ext);
    }
    if CleanName(name, ext) {
      CleanPacked(name, ext);
      Refilled(name);
      Refilled(ext);
      var rest := Padded(if ext[0] != SPACE then NoSpaces(ext) else [], 3);
      assert (Padded(NoSpaces(name), 8) + rest)[..8] == Padded(NoSpaces(name), 8) && (name + ext)[..8] == name;
      assert (Padded(NoSpaces(name), 8) + rest)[8..] == rest && (name + ext)[8..] == ext;
      if ext[0] == SPACE {
        assert rest == [SPACE, SPACE, SPACE];
        assert rest == ext <==> Trimmed(ext);
      }
    }
  }

  /** `A B.TXT`: the inner space goes, and with it the name. */
  lemma InnerSpaceLost(name: seq<Byte>, ext: seq<Byte>)
    requires name == [0x41, SPACE, 0x42, SPACE, SPACE, SPACE, SPACE, SPACE] && ext == [0x54, 0x58, 0x54]
    ensures Packed(CString(Shown(name, ext))) != name + ext
  {
    hide Packed, Shown, CString;
    assert name[1] == SPACE && name[2] != SPACE;
    RoundTrip(name, ext);
  }
}

/** Listing the root directory and opening a file by name. */
module FatDirectory {
  import opened Common
  import opened FatNames

  const FAT_ATTR_VOLUME_ID: bv8 := 0x08
  const FAT_ATTR_DIRECTORY: bv8 := 0x10
  const FAT_ATTR_LFN: bv8 := 0x0F

  type Name = s: seq<Byte> | |s| == 8 witness [0, 0, 0, 0, 0, 0, 0, 0]
  type Ext = s: seq<Byte> | |s| == 3 witness [0, 0, 0]

  datatype Entry = Entry(name: Name, ext: Ext, attr: bv8, firstCluster: nat, fileSize: nat)

  /** The directory's sectors, as far as they can be read. */
  type Sectors = seq<Option<seq<Entry>>>

  predicate Ends(e: Entry) {
    e.name[0] == 0
  }

  predicate Listable(e: Entry) {
    e.name[0] != 0xE5 && e.attr & (FAT_ATTR_LFN | FAT_ATTR_VOLUME_ID | FAT_ATTR_DIRECTORY) == 0
  }

  predicate Openable(e: Entry) {
    e.name[0] != 0xE5 && e.attr & (FAT_ATTR_LFN | FAT_ATTR_VOLUME_ID) == 0
  }

  lemma ListableOpens(e: Entry)
    requires Listable(e)
    ensures Openable(e)
  {
    MaskPart(e.attr);
  }

  lemma MaskPart(attr: bv8)
    ensures attr & (FAT_ATTR_LFN | FAT_ATTR_VOLUME_ID | FAT_ATTR_DIRECTORY) == 0 ==>
      attr & (FAT_ATTR_LFN | FAT_ATTR_VOLUME_ID) == 0
  {
  }

  /** Entries up to the end mark. */
  function Before(entries: seq<Entry>): (r: seq<Entry>)
    ensures |r| <= |entries| && r == entries[..|r|]
  {
    if entries == [] || Ends(entries[0]) then [] else [entries[0]] + Before(entries[1..])
  }

  /**
   * What a scan of the directory sees: up to the end mark, and no further than the first sector that cannot
   * be read.
   */
  function Seen(sectors: Sectors): seq<Entry> {
    if sectors == [] || sectors[0].None? then []
    else
      var entries := sectors[0].value;
      if |Before(entries)| < |entries| then Before(entries) else entries + Seen(sectors[1..])
  }

  function EntryName(e: Entry): (r: seq<Byte>)
    ensures |r| == 11
  {
    e.name + e.ext
  }

  function ShownEntry(e: Entry): seq<Byte> {
    CString(Shown(e.name, e.ext))
  }

  /** What is reported for the entries, in order. */
  function Reported(entries: seq<Entry>): seq<(seq<Byte>, nat)> {
    if entries == [] then []
    else
      var e := entries[|entries| - 1];
      Reported(entries[..|entries| - 1]) + (if Listable(e) then [(ShownEntry(e), e.fileSize)] else [])
  }

  ghost predicate IsMatch(e: Entry, name: seq<Byte>) {
    Openable(e) && EntryName(e) == name
  }

  /** Index of the first entry that opening `name` finds. */
  ghost predicate Finds(entries: seq<Entry>, name: seq<Byte>, i: nat) {
    i < |entries| && IsMatch(entries[i], name) && forall j | 0 <= j < i :: !IsMatch(entries[j], name)
  }

  /** `Before` as a scan meets it: entry `i` ends it, or none does. */
  lemma {:induction false} BeforeAt(entries: seq<Entry>, i: nat)
    requires i <= |entries| && forall j | 0 <= j < i :: !Ends(entries[j])
    ensures i < |entries| && Ends(entries[i]) ==> Before(entries) == entries[..i]
    ensures i == |entries| ==> Before(entries) == entries
  {
    if i > 0 {
      BeforeAt(entries[1..], i - 1);
    }
  }

  /** `fat16_list_root`; what it passes to the callback. */
  method ListRoot(sectors: Sectors) returns (count: nat, reports: seq<(seq<Byte>, nat)>)
    ensures reports == Reported(Seen(sectors)) && count == |reports|
  {
    hide Reported, Before, Listable, ShownEntry;
    count, reports := 0, [];
    NothingReported();
    ghost var seen := [];
    for s := 0 to |sectors|
      invariant reports == Reported(seen) && count == |reports|
      invariant Seen(sectors) == seen + Seen(sectors[s..])
    {
      if sectors[s].None? {
        assert Seen(sectors[s..]) == [] && seen + [] == seen;
        return;
      }
      var entries := sectors[s].value;
      ghost var seen0 := seen;
      assert seen0 + entries[..0] == seen0;
      for i := 0 to |entries|
        invariant reports == Reported(seen0 + entries[..i]) && count == |reports|
        invariant forall j | 0 <= j < i :: !Ends(entries[j])
      {
        var e := entries[i];
        if Ends(e) {
          BeforeAt(entries, i);
          return;
        }
        ReportedNext(seen0 + entries[..i], e);
        assert seen0 + entries[..i] + [e] == seen0 + entries[..i + 1];
        if !Listable(e) {
          continue;
        }
        var shown := Fat83ToStr(e.name, e.ext);
        reports := reports + [(CString(shown), e.fileSize)];
        count := count + 1;
      }
      BeforeAt(entries, |entries|);
      assert entries[..|entries|] == entries && sectors[s..][1..] == sectors[s + 1..];
      seen := seen0 + entries;
      assert seen + Seen(sectors[s + 1..]) == seen0 + (entries + Seen(sectors[s + 1..]));
    }
    assert Seen(sectors[|sectors|..]) == [] && seen + [] == seen;
  }

  lemma NothingReported()
    ensures Reported([]) == []
  {
  }

  lemma ReportedNext(entries: seq<Entry>, e: Entry)
    ensures Reported(entries + [e]) == Reported(entries) +
      (if Listable(e) then [(CString(Shown(e.name, e.ext)), e.fileSize)] else [])
  {
    assert (entries + [e])[..|entries|] == entries;
  }

  /** `fat83_cmp`. */
  method Fat83Cmp(a: seq<Byte>, b: seq<Byte>) returns (same: bool)
    requires |a| == 11 && |b| == 11
    ensures same <==> a == b
  {
    for i := 0 to 11
      invariant a[..i] == b[..i]
    {
      if a[i] != b[i] {
        return false;
      }
    }
    assert a == a[..11] && b == b[..11];
    return true;
  }

  /** What opening `filename` gives: the first match, or nothing where there is none. */
  ghost predicate Opens(entries: seq<Entry>, filename: seq<Byte>, r: Option<Entry>) {
    && (r == None <==> forall e | e in entries :: !IsMatch(e, Packed(filename)))
    && (r.Some? ==> exists i: nat :: Finds(entries, Packed(filename), i) && entries[i] == r.value)
  }

  /** `fat16_open`: the first match, if the scan gets there. */
  method Open(sectors: Sectors, filename: seq<Byte>) returns (r: Option<Entry>)
    requires 0 !in filename
    ensures Opens(Seen(sectors), filename, r)
  {
    hide Before, Openable, Packed;
    var fatName := ToFat83(filename);
    ghost var seen := [];
    for s := 0 to |sectors|
      invariant Seen(sectors) == seen + Seen(sectors[s..])
      invariant forall e | e in seen :: !IsMatch(e, fatName)
    {
      if sectors[s].None? {
        assert seen + Seen(sectors[s..]) == seen;
        return None;
      }
      var entries := sectors[s].value;
      for i := 0 to |entries|
        invariant forall j | 0 <= j < i :: !Ends(entries[j]) && !IsMatch(entries[j], fatName)
      {
        var e := entries[i];
        if Ends(e) {
          BeforeAt(entries, i);
          return None;
        }
        if !Openable(e) {
          continue;
        }
        var found := Fat83Cmp(fatName, EntryName(e));
        if found {
          SeesEntry(sectors[s..], i);
          FoundAt(seen, Seen(sectors[s..]), i, fatName);
          return Some(e);
        }
      }
      BeforeAt(entries, |entries|);
      assert entries[..|entries|] == entries && sectors[s..][1..] == sectors[s + 1..];
      seen := seen + entries;
    }
    return None;
  }

  /** What stands before the end mark in a sector is seen. */
  lemma SeesEntry(sectors: Sectors, i: nat)
    requires sectors != [] && sectors[0].Some? && i < |sectors[0].value|
    requires forall j | 0 <= j <= i :: !Ends(sectors[0].value[j])
    ensures |Seen(sectors)| > i && forall j | 0 <= j <= i :: Seen(sectors)[j] == sectors[0].value[j]
  {
    var entries := sectors[0].value;
    LongBefore(entries, i);
  }

  lemma {:induction false} LongBefore(entries: seq<Entry>, i: nat)
    requires i < |entries| && forall j | 0 <= j <= i :: !Ends(entries[j])
    ensures i < |Before(entries)|
  {
    if i > 0 {
      LongBefore(entries[1..], i - 1);
    }
  }

  lemma FoundAt(seen: seq<Entry>, more: seq<Entry>, i: nat, name: seq<Byte>)
    requires i < |more| && IsMatch(more[i], name)
    requires forall e | e in seen :: !IsMatch(e, name)
    requires forall j | 0 <= j < i :: !IsMatch(more[j], name)
    ensures Finds(seen + more, name, |seen| + i) && (seen + more)[|seen| + i] == more[i]
    ensures more[i] in seen + more
  {
    forall j | 0 <= j < |seen| + i
      ensures !IsMatch((seen + more)[j], name)
    {
      assert (seen + more)[j] == if j < |seen| then seen[j] else more[j - |seen|];
    }
    assert (seen + more)[|seen| + i] == more[i];
  }

  /** The name reported for entry `i` opens entry `i` exactly if it is well formed and no entry before has it. */
  lemma OpensItself(entries: seq<Entry>, i: nat)
    requires i < |entries| && Listable(entries[i])
    ensures
      var e := entries[i];
      Finds(entries, Packed(ShownEntry(e)), i) <==>
      Valid83(e.name, e.ext) && forall j | 0 <= j < i :: !IsMatch(entries[j], EntryName(e))
  {
    hide Packed, Shown, CString, Listable, Openable;
    ListableOpens(entries[i]);
    RoundTrip(entries[i].name, entries[i].ext);
  }

  /** So in a directory of well-formed, distinct names whatever is reported opens to the entry it was reported for. */
  lemma ReportsOpen(entries: seq<Entry>)
    requires WellNamed(entries)
    ensures forall i | 0 <= i < |entries| && Listable(entries[i]) :: Finds(entries, Packed(ShownEntry(entries[i])), i)
  {
    forall i | 0 <= i < |entries| && Listable(entries[i])
      ensures Finds(entries, Packed(ShownEntry(entries[i])), i)
    {
      hide Packed, Shown, CString, Listable, Openable, Valid83;
      ListableOpens(entries[i]);
      OpensItself(entries, i);
    }
  }

  /** A report comes from a listable entry. */
  lemma {:induction false} ReportedFrom(entries: seq<Entry>, k: nat) returns (i: nat)
    requires k < |Reported(entries)|
    ensures i < |entries| && Listable(entries[i])
    ensures Reported(entries)[k] == (ShownEntry(entries[i]), entries[i].fileSize)
  {
    var n := |entries| - 1;
    if k < |Reported(entries[..n])| {
      i := ReportedFrom(entries[..n], k);
    } else {
      i := n;
    }
  }

  lemma FoundOnce(entries: seq<Entry>, name: seq<Byte>, i: nat, j: nat)
    requires Finds(entries, name, i) && Finds(entries, name, j)
    ensures i == j
  {
  }

  /** The names of a directory are well formed, and no two entries that may be opened share one. */
  ghost predicate WellNamed(entries: seq<Entry>) {
    && (forall i | 0 <= i < |entries| && Listable(entries[i]) :: Valid83(entries[i].name, entries[i].ext))
    && (forall i, j | 0 <= j < i < |entries| && Openable(entries[i]) && Openable(entries[j]) ::
          EntryName(entries[i]) != EntryName(entries[j]))
  }

  /** End to end: in such a directory, opening a name that the listing reported gives the entry it was reported for. */
  lemma ListedOpens(sectors: Sectors, k: nat, r: Option<Entry>) returns (i: nat)
    requires WellNamed(Seen(sectors)) && k < |Reported(Seen(sectors))|
    requires Opens(Seen(sectors), Reported(Seen(sectors))[k].0, r)
    ensures i < |Seen(sectors)| && Listable(Seen(sectors)[i]) && r == Some(Seen(sectors)[i])
    ensures Reported(Seen(sectors))[k] == (ShownEntry(r.value), r.value.fileSize)
  {
    hide Packed, Shown, CString, Listable, Openable, Valid83, Seen, Reported;
    var entries := Seen(sectors);
    i := ReportedFrom(entries, k);
    ReportsOpen(entries);
    assert Finds(entries, Packed(ShownEntry(entries[i])), i);
    FoundMatch(entries, Packed(ShownEntry(entries[i])), i);
    if r.Some? {
      var j: nat :| Finds(entries, Packed(ShownEntry(entries[i])), j) && entries[j] == r.value;
      FoundOnce(entries, Packed(ShownEntry(entries[i])), i, j);
    }
  }

  lemma FoundMatch(entries: seq<Entry>, name: seq<Byte>, i: nat)
    requires Finds(entries, name, i)
    ensures i < |entries| && entries[i] in entries && IsMatch(entries[i], name)
  {
  }
}

/** File contents: following the chain of clusters. */
module FatFiles {
  import opened Common

  const SECTOR_SIZE: nat := 512

  type Sector = s: seq<Byte> | |s| == SECTOR_SIZE witness seq(SECTOR_SIZE, i => 0)

  /**
   * A mounted volume: the disk, where a sector may fail to be read, and the file allocation table.
   * Entries past the cached table are whatever the 16-bit index reads there.
   */
  datatype Volume = Volume(disk: nat -> Option<Sector>, fat: seq<nat>, dataStart: nat, spc: nat)

  ghost predicate VolumeOk(v: Volume) {
    |v.fat| == 0x1_0000 && 1 <= v.spc && forall c | 0 <= c < |v.fat| :: v.fat[c] < 0x1_0000
  }

  predicate InChain(c: nat) {
    2 <= c < 0xFFF8
  }

  /** Sector `s` of cluster `c`. */
  function SectorOf(v: Volume, c: nat, s: nat): nat
    requires InChain(c)
  {
    v.dataStart + (c - 2) * v.spc + s
  }

  /** The sector's bytes; nothing depends on those of one that cannot be read. */
  function SectorData(v: Volume, n: nat): Sector {
    match v.disk(n)
    case Some(data) => data
    case None => seq(SECTOR_SIZE, i => 0)
  }

  /** The first `want` bytes of the chain from sector `s` of cluster `c` on, or all if it is shorter. */
  function Data(v: Volume, c: nat, s: nat, want: nat): (r: seq<Byte>)
    requires VolumeOk(v) && s < v.spc && c < 0x1_0000
    ensures |r| <= want
    decreases want
  {
    if want == 0 || !InChain(c) then []
    else
      var chunk := Min(want, SECTOR_SIZE);
      SectorData(v, SectorOf(v, c, s))[..chunk] + if s + 1 < v.spc then Data(v, c, s + 1, want - chunk)
          else Data(v, v.fat[c], 0, want - chunk)
  }

  /** No sector that these bytes come from fails. */
  predicate Readable(v: Volume, c: nat, s: nat, want: nat)
    requires VolumeOk(v) && s < v.spc && c < 0x1_0000
    decreases want
  {
    if want == 0 || !InChain(c) then true
    else
      var chunk := Min(want, SECTOR_SIZE);
      v.disk(SectorOf(v, c, s)).Some? && if s + 1 < v.spc then Readable(v, c, s + 1, want - chunk)
          else Readable(v, v.fat[c], 0, want - chunk)
  }

  /** The sector after the last of a cluster is the first of the next cluster. */
  function Cluster(v: Volume, c: nat, s: nat): nat
    requires VolumeOk(v) && c < 0x1_0000
  {
    if s < v.spc then c else v.fat[c]
  }

  function InCluster(v: Volume, s: nat): nat {
    if s < v.spc then s else 0
  }

  /** One sector, and the rest. */
  lemma OneSector(v: Volume, c: nat, s: nat, want: nat)
    requires VolumeOk(v) && s < v.spc && InChain(c) && 0 < want
    ensures
      var chunk := Min(want, SECTOR_SIZE);
      && v.fat[c] < 0x1_0000
      && Data(v, c, s, want) == SectorData(v, SectorOf(v, c, s))[..chunk] +
         Data(v, Cluster(v, c, s + 1), InCluster(v, s + 1), want - chunk)
      && Readable(v, c, s, want) == (v.disk(SectorOf(v, c, s)).Some? &&
         Readable(v, Cluster(v, c, s + 1), InCluster(v, s + 1), want - chunk))
  {
  }

  lemma NoMore(v: Volume, c: nat, s: nat, want: nat)
    requires VolumeOk(v) && s < v.spc && c < 0x1_0000 && (want == 0 || !InChain(c))
    ensures Data(v, c, s, want) == [] && Readable(v, c, s, want)
  {
  }

  lemma SectorRead(v: Volume, n: nat)
    ensures v.disk(n).Some? ==> SectorData(v, n) == v.disk(n).value
  {
  }

  /** `(int)` of an unsigned 32-bit value. */
  function ToInt(n: nat): (r: int)
    ensures n < 0x1_0000_0000 ==> if n < 0x8000_0000 then r == n else r < 0
  {
    if n % 0x1_0000_0000 < 0x8000_0000 then n % 0x1_0000_0000 else n % 0x1_0000_0000 - 0x1_0000_0000
  }

  /** Up to this length `bytes_done + 512` does not wrap. */
  const MAX_LENGTH: nat := 0x1_0000_0000 - SECTOR_SIZE

  /**
   * `fat16_read_file`: -1 exactly if a sector it needs fails; else the number of bytes read, which the
   * result type makes negative from 2 GB up.
   */
  method ReadFile(v: Volume, firstCluster: nat, fileSize: nat, bufSize: nat) returns (r: int, dst: seq<Byte>)
    requires VolumeOk(v) && firstCluster < 0x1_0000 && Min(fileSize, bufSize) <= MAX_LENGTH
    ensures
      var toRead := Min(fileSize, bufSize);
      if Readable(v, firstCluster, 0, toRead) then dst == Data(v, firstCluster, 0, toRead) && r == ToInt(|dst|)
          else r == -1
  {
    hide Data, Readable, SectorData, SectorOf;
    var toRead := Min(fileSize, bufSize);
    dst := [];
    var cluster := firstCluster;
    while |dst| < toRead && InChain(cluster)
      invariant cluster < 0x1_0000 && |dst| <= toRead
      invariant dst + Data(v, cluster, 0, toRead - |dst|) == Data(v, firstCluster, 0, toRead)
      invariant Readable(v, cluster, 0, toRead - |dst|) == Readable(v, firstCluster, 0, toRead)
      decreases toRead - |dst|
    {
      ghost var before := |dst|;
      var s := 0;
      while s < v.spc && |dst| < toRead
        invariant s <= v.spc && |dst| <= toRead && (s == 0 ==> |dst| == before) && (s > 0 ==> |dst| > before)
        invariant dst + Data(v, Cluster(v, cluster, s), InCluster(v, s), toRead - |dst|) ==
          Data(v, firstCluster, 0, toRead)
        invariant Readable(v, Cluster(v, cluster, s), InCluster(v, s), toRead - |dst|) ==
          Readable(v, firstCluster, 0, toRead)
        decreases v.spc - s
      {
        OneSector(v, cluster, s, toRead - |dst|);
        var sector := v.disk(SectorOf(v, cluster, s));
        if sector.None? {
          return -1, dst;
        }
        assert sector.value == SectorData(v, SectorOf(v, cluster, s)) by {
          SectorRead(v, SectorOf(v, cluster, s));
        }
        var chunk := Min(toRead - |dst|, SECTOR_SIZE);
        assert dst + (sector.value[..chunk] +
          Data(v, Cluster(v, cluster, s + 1), InCluster(v, s + 1), toRead - |dst| - chunk))
            == dst + sector.value[..chunk] +
                Data(v, Cluster(v, cluster, s + 1), InCluster(v, s + 1), toRead - |dst| - chunk);
        dst := dst + sector.value[..chunk];
        s := s + 1;
      }
      NoMore(v, Cluster(v, cluster, s), InCluster(v, s), 0);
      NoMore(v, v.fat[cluster], 0, 0);
      cluster := v.fat[cluster];
    }
    NoMore(v, cluster, 0, toRead - |dst|);
    assert dst + [] == dst;
    return ToInt(|dst|), dst;
  }

  /** Reading less gives a prefix of what reading more gives. */
  lemma {:induction false} ReadLess(v: Volume, c: nat, s: nat, less: nat, more: nat)
    requires VolumeOk(v) && s < v.spc && c < 0x1_0000 && less <= more
    ensures |Data(v, c, s, less)| == Min(less, |Data(v, c, s, more)|)
    ensures Data(v, c, s, less) == Data(v, c, s, more)[..|Data(v, c, s, less)|]
    ensures Readable(v, c, s, more) ==> Readable(v, c, s, less)
    decreases less
  {
    hide Data, Readable, SectorData, SectorOf;
    if less == 0 || !InChain(c) {
      NoMore(v, c, s, less);
      if !InChain(c) {
        NoMore(v, c, s, more);
      }
    } else {
      OneSector(v, c, s, less);
      OneSector(v, c, s, more);
      var sector, d, e := SectorData(v, SectorOf(v, c, s)), Cluster(v, c, s + 1), InCluster(v, s + 1);
      if less <= SECTOR_SIZE {
        NoMore(v, d, e, 0);
        Prefixes(sector, less, Min(more, SECTOR_SIZE), Data(v, d, e, more - Min(more, SECTOR_SIZE)));
      } else {
        ReadLess(v, d, e, less - SECTOR_SIZE, more - SECTOR_SIZE);
        SamePrefix(sector[..SECTOR_SIZE], Data(v, d, e, less - SECTOR_SIZE), Data(v, d, e, more - SECTOR_SIZE));
      }
    }
  }

  lemma Prefixes(s: seq<Byte>, n: nat, m: nat, rest: seq<Byte>)
    requires n <= m <= |s|
    ensures s[..n] == (s[..m] + rest)[..n] && s[..n] + [] == s[..n]
  {
  }

  lemma SamePrefix(a: seq<Byte>, b: seq<Byte>, b': seq<Byte>)
    requires |b| <= |b'| && b == b'[..|b|]
    ensures a + b == (a + b')[..|a + b|]
  {
  }

  /** The chain from cluster `c` is `chain`, and ends. */
  ghost predicate IsChain(v: Volume, c: nat, chain: seq<nat>)
    requires VolumeOk(v) && c < 0x1_0000
    decreases |chain|
  {
    if chain == [] then !InChain(c)
    else chain[0] == c && InChain(c) && v.fat[c] < 0x1_0000 && IsChain(v, v.fat[c], chain[1..])
  }

  /** All bytes of sectors `s` on of cluster `c`. */
  ghost function ClusterBytes(v: Volume, c: nat, s: nat): (r: seq<Byte>)
    requires s <= v.spc && InChain(c)
    ensures |r| == (v.spc - s) * SECTOR_SIZE
    decreases v.spc - s
  {
    if s == v.spc then [] else SectorData(v, SectorOf(v, c, s)) + ClusterBytes(v, c, s + 1)
  }

  ghost function ChainBytes(v: Volume, chain: seq<nat>): seq<Byte>
    requires forall k | 0 <= k < |chain| :: InChain(chain[k])
  {
    if chain == [] then [] else ClusterBytes(v, chain[0], 0) + ChainBytes(v, chain[1..])
  }

  /** A cluster, then what follows. */
  lemma {:induction false} OneCluster(v: Volume, c: nat, s: nat, want: nat)
    requires VolumeOk(v) && s < v.spc && InChain(c) && v.fat[c] < 0x1_0000
    ensures
      var bytes := ClusterBytes(v, c, s);
      Data(v, c, s, want) == if want <= |bytes| then bytes[..want] else bytes + Data(v, v.fat[c], 0, want - |bytes|)
    decreases v.spc - s
  {
    hide Data, Readable, SectorData, SectorOf;
    var bytes, rest := ClusterBytes(v, c, s), ClusterBytes(v, c, s + 1);
    var sector := SectorData(v, SectorOf(v, c, s));
    assert bytes == sector + rest;
    if want == 0 {
      NoMore(v, c, s, want);
    } else {
      OneSector(v, c, s, want);
      if want <= SECTOR_SIZE {
        NoMore(v, Cluster(v, c, s + 1), InCluster(v, s + 1), 0);
        Prefixes(sector, want, SECTOR_SIZE, rest);
        assert sector[..SECTOR_SIZE] == sector;
      } else {
        assert sector[..SECTOR_SIZE] == sector;
        if s + 1 < v.spc {
          OneCluster(v, c, s + 1, want - SECTOR_SIZE);
        }
        Joined(sector, rest, want, if want <= |bytes| then [] else Data(v, v.fat[c], 0, want - |bytes|));
      }
    }
  }

  lemma Joined(a: seq<Byte>, b: seq<Byte>, n: nat, c: seq<Byte>)
    requires |a| <= n
    ensures n <= |a + b| ==> a + b[..n - |a|] == (a + b)[..n]
    ensures a + (b + c) == a + b + c
  {
  }

  lemma {:induction false} ChainClusters(v: Volume, c: nat, chain: seq<nat>)
    requires VolumeOk(v) && c < 0x1_0000 && IsChain(v, c, chain)
    ensures forall k | 0 <= k < |chain| :: InChain(chain[k])
    decreases |chain|
  {
    if chain != [] {
      ChainClusters(v, v.fat[c], chain[1..]);
    }
  }

  /** On a chain that ends, the result is the chain's bytes up to the shorter of the two lengths. */
  lemma {:induction false} ChainData(v: Volume, c: nat, chain: seq<nat>, want: nat)
    requires VolumeOk(v) && c < 0x1_0000 && IsChain(v, c, chain)
    ensures forall k | 0 <= k < |chain| :: InChain(chain[k])
    ensures Data(v, c, 0, want) == ChainBytes(v, chain)[..Min(want, |ChainBytes(v, chain)|)]
    decreases |chain|
  {
    hide Data, Readable, ClusterBytes;
    ChainClusters(v, c, chain);
    if chain == [] {
      NoMore(v, c, 0, want);
    } else {
      var bytes, rest := ClusterBytes(v, c, 0), ChainBytes(v, chain[1..]);
      assert ChainBytes(v, chain) == bytes + rest;
      OneCluster(v, c, 0, want);
      if want > |bytes| {
        ChainData(v, v.fat[c], chain[1..], want - |bytes|);
        PrefixBeyond(bytes, rest, want);
      } else {
        assert (bytes + rest)[..want] == bytes[..want];
      }
    }
  }

  lemma PrefixBeyond(a: seq<Byte>, b: seq<Byte>, n: nat)
    requires |a| <= n
    ensures (a + b)[..Min(n, |a + b|)] == a + b[..Min(n - |a|, |b|)]
  {
  }

  /** The `k`-th cluster, where the chain gets that far. */
  function Nth(v: Volume, c: nat, k: nat): nat
    requires VolumeOk(v) && c < 0x1_0000
    decreases k
  {
    if k == 0 then c else if v.fat[c] < 0x1_0000 then Nth(v, v.fat[c], k - 1) else 0
  }

  /** On one that does not, a cyclic one say, every read is as long as asked for. */
  lemma {:induction false} EndlessData(v: Volume, c: nat, want: nat)
    requires VolumeOk(v) && c < 0x1_0000 && forall k: nat :: InChain(Nth(v, c, k))
    ensures |Data(v, c, 0, want)| == want
    decreases want
  {
    assert InChain(Nth(v, c, 0));
    assert v.fat[c] < 0x1_0000;
    OneCluster(v, c, 0, want);
    var bytes := ClusterBytes(v, c, 0);
    if want > |bytes| {
      forall k: nat
        ensures InChain(Nth(v, v.fat[c], k))
      {
        assert InChain(Nth(v, c, k + 1));
      }
      assert 0 < |bytes|;
      EndlessData(v, v.fat[c], want - |bytes|);
    }
  }

  /** An open file, whose position all its descriptors share. */
  class SharedFile {
    const volume: Volume
    const firstCluster: nat
    const fileSize: nat
    var position: nat
    /** What reads have returned so far, in order. */
    ghost var delivered: seq<Byte>

    ghost predicate Sound() {
      VolumeOk(volume) && firstCluster < 0x1_0000 && fileSize <= MAX_LENGTH
    }

    /** The file: its chain, cut at its size. */
    ghost function Whole(): seq<Byte>
      requires Sound()
    {
      Data(volume, firstCluster, 0, fileSize)
    }

    ghost predicate Valid()
      reads this
    {
      Sound() && position <= |Whole()| && delivered == Whole()[..position]
    }

    constructor (volume: Volume, firstCluster: nat, fileSize: nat)
      requires VolumeOk(volume) && firstCluster < 0x1_0000 && fileSize <= MAX_LENGTH
      ensures Valid() && delivered == [] && this.volume == volume && this.firstCluster == firstCluster
      ensures this.fileSize == fileSize
    {
      this.volume, this.firstCluster, this.fileSize := volume, firstCluster, fileSize;
      position, delivered := 0, [];
    }

    /**
     * The file arm of `fd_read`: -1 and no bytes on a failure, else the next bytes of the file. `bufferOk` is
     * whether the kernel finds a buffer.
     */
    method Read(count: nat, bufferOk: bool) returns (r: int, dst: seq<Byte>)
      requires Valid()
      modifies this
      ensures Valid() && delivered == old(delivered) + dst && position == old(position) + |dst|
      ensures r == -1 ==> dst == []
      ensures r != -1 ==> r == |dst| == Min(count, |Whole()| - old(position))
      ensures r == -1 <==>
        && old(position) < fileSize
        && (|| !Readable(volume, firstCluster, 0, Min(fileSize, old(position) + count))
            || 0x8000_0000 <= Min(old(position) + count, |Whole()|)
            || (!bufferOk && 0 < Min(count, |Whole()| - old(position))))
    {
      hide Data, Readable, ToInt;
      dst := [];
      NoTail(delivered);
      if position >= fileSize {
        return 0, dst;
      }
      var wanted := Min(count, fileSize - position);
      ReadLess(volume, firstCluster, 0, position + wanted, fileSize);
      var bytes, _ := ReadFile(volume, firstCluster, fileSize, position + wanted);
      if bytes < 0 {
        return -1, dst;
      }
      var actual := 0;
      if bytes > position {
        if !bufferOk {
          return -1, dst;
        }
        var again, buffer := ReadFile(volume, firstCluster, fileSize, position + wanted);
        if again > position {
          actual := Min(again - position, wanted);
          dst := buffer[position..position + actual];
          NextPart(Whole(), buffer, position, actual);
        }
      }
      position := position + actual;
      delivered := delivered + dst;
      return actual, dst;
    }
  }

  lemma NoTail(s: seq<Byte>)
    ensures s + [] == s
  {
  }

  lemma NextPart(whole: seq<Byte>, bytes: seq<Byte>, position: nat, actual: nat)
    requires |bytes| <= |whole| && bytes == whole[..|bytes|] && position + actual <= |bytes|
    ensures whole[..position] + bytes[position..position + actual] == whole[..position + actual]
  {
  }
}
