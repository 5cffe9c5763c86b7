/** The text form of a directory: one record `name ':' id '/'` per entry,
    ids in decimal. The functions here follow the stream-based helpers of
    the directory layer on records whose ids are plain digit strings:
    printing and reading an id, listing, appending, parsing and removing
    records. Reading an id takes its leading digits only; the stream's
    whitespace skipping and sign handling are not modelled. Text with no
    leading digit reads as 0, as the stream stores it; the stream leaves
    the id unset only when nothing but whitespace follows. */
module DirText {
  import opened Common

  const Colon: u8 := 58
  const Slash: u8 := 47
  const Newline: u8 := 10
  const DigitZero: u8 := 48

  /** The largest inode id, where reading an overflowing number saturates. */
  const MaxId: nat := 0xFFFF_FFFF_FFFF_FFFF

  /** One directory entry: a name and the inode id it refers to. */
  datatype DirEntry = DirEntry(name: seq<u8>, id: u64)

  predicate IsDigit(c: u8) {
    DigitZero <= c <= DigitZero + 9
  }

  predicate AllDigits(s: seq<u8>) {
    forall i :: 0 <= i < |s| ==> IsDigit(s[i])
  }

  /** Decimal text with no superfluous leading zero. */
  predicate Canonical(s: seq<u8>) {
    |s| >= 1 && AllDigits(s) && (|s| > 1 ==> s[0] != DigitZero)
  }

  // -------------------------------------------------------------------
  // Scanning for a delimiter

  /** The index of the first c in s, or |s| when there is none. */
  function IndexOf(s: seq<u8>, c: u8): (i: nat)
    ensures i <= |s|
    ensures forall k :: 0 <= k < i ==> s[k] != c
    ensures i < |s| ==> s[i] == c
  {
    if s == [] then 0
    else if s[0] == c then 0
    else 1 + IndexOf(s[1..], c)
  }

  /** A prefix free of c followed by c: c is found right after the prefix. */
  lemma {:induction false} IndexOfAfter(a: seq<u8>, b: seq<u8>, c: u8)
    requires forall k :: 0 <= k < |a| ==> a[k] != c
    requires |b| >= 1 && b[0] == c
    ensures IndexOf(a + b, c) == |a|
  {
    if a != [] {
      assert (a + b)[1..] == a[1..] + b;
      IndexOfAfter(a[1..], b, c);
    }
  }

  /** A text free of c: the scan runs to its end. */
  lemma {:induction false} IndexOfAbsent(a: seq<u8>, c: u8)
    requires forall k :: 0 <= k < |a| ==> a[k] != c
    ensures IndexOf(a, c) == |a|
  {
    if a != [] {
      IndexOfAbsent(a[1..], c);
    }
  }

  /** What getline(…, c) reads: the text before the first c. */
  function Before(s: seq<u8>, c: u8): (t: seq<u8>)
    ensures t <= s
    ensures forall k :: 0 <= k < |t| ==> t[k] != c
  {
    s[..IndexOf(s, c)]
  }

  /** What is left after getline(…, c): the text after the first c, and
      nothing when there is no c. */
  function After(s: seq<u8>, c: u8): (t: seq<u8>)
    ensures IndexOf(s, c) < |s| ==> s == Before(s, c) + [c] + t
    ensures IndexOf(s, c) == |s| ==> t == []
  {
    var i := IndexOf(s, c);
    if i < |s| then s[i + 1..] else []
  }

  /** Splitting a + [c] + b at its first c, when a holds no c. */
  lemma SplitAt(a: seq<u8>, b: seq<u8>, c: u8)
    requires forall k :: 0 <= k < |a| ==> a[k] != c
    ensures Before(a + [c] + b, c) == a && After(a + [c] + b, c) == b
  {
    assert a + [c] + b == a + ([c] + b);
    IndexOfAfter(a, [c] + b, c);
  }

  // -------------------------------------------------------------------
  // Inode ids as decimal text

  /** inode_id_to_string: the decimal digits of n, most significant first. */
  function IdToString(n: nat): (s: seq<u8>)
    ensures Canonical(s)
  {
    if n < 10 then [DigitZero + n as u8]
    else IdToString(n / 10) + [DigitZero + (n % 10) as u8]
  }

  /** The value of a run of decimal digits. */
  function DigitsValue(s: seq<u8>): nat
    requires AllDigits(s)
  {
    if s == [] then 0
    else DigitsValue(s[..|s| - 1]) * 10 + (s[|s| - 1] - DigitZero) as nat
  }

  /** The longest prefix of s made of digits. */
  function LeadingDigits(s: seq<u8>): (d: seq<u8>)
    ensures d <= s && AllDigits(d)
    ensures |d| < |s| ==> !IsDigit(s[|d|])
  {
    if s == [] || !IsDigit(s[0]) then []
    else [s[0]] + LeadingDigits(s[1..])
  }

  /** string_to_inode_id, and `>> id` on a record's tail: the value of the
      leading digits, 0 when there are none, the largest id on overflow. */
  function StringToId(s: seq<u8>): (id: u64)
    ensures AllDigits(s) && DigitsValue(s) <= MaxId ==> LeadingDigits(s) == s && id as nat == DigitsValue(s)
  {
    var v := DigitsValue(LeadingDigits(s));
    if v <= MaxId then v else MaxId
  }

  /** Canonical text with a non-zero first digit has a positive value. */
  lemma {:induction false} LeadingNonZero(s: seq<u8>)
    requires AllDigits(s) && |s| >= 1 && s[0] != DigitZero
    ensures DigitsValue(s) >= 1
  {
    if |s| > 1 {
      LeadingNonZero(s[..|s| - 1]);
    }
  }

  /** Reading back a printed value gives the value. */
  lemma {:induction false} ValueOfIdToString(n: nat)
    ensures DigitsValue(IdToString(n)) == n
  {
    if n >= 10 {
      var s := IdToString(n);
      assert s[..|s| - 1] == IdToString(n / 10);
      ValueOfIdToString(n / 10);
    }
  }

  /** Printing the value of canonical text gives the text back. */
  lemma {:induction false} IdToStringOfValue(s: seq<u8>)
    requires Canonical(s)
    ensures IdToString(DigitsValue(s)) == s
  {
    if |s| > 1 {
      var init := s[..|s| - 1];
      LeadingNonZero(init);
      IdToStringOfValue(init);
      assert s == init + [s[|s| - 1]];
    }
  }

  /** The id round trip of the directory records, both ways: reading a
      printed id gives the id, and printing the id read from canonical text
      whose value fits in 64 bits gives the text. */
  lemma IdRoundTrip(id: u64, s: seq<u8>)
    ensures StringToId(IdToString(id)) == id
    ensures Canonical(s) && DigitsValue(s) <= MaxId ==> IdToString(StringToId(s) as nat) == s
  {
    ValueOfIdToString(id);
    if Canonical(s) && DigitsValue(s) <= MaxId {
      IdToStringOfValue(s);
    }
  }

  // -------------------------------------------------------------------
  // Records

  /** A name the text form can carry: no ':' and no '/'. */
  predicate PlainName(name: seq<u8>) {
    forall k :: 0 <= k < |name| ==> name[k] != Colon && name[k] != Slash
  }

  predicate AllPlain(l: seq<DirEntry>) {
    forall i :: 0 <= i < |l| ==> PlainName(l[i].name)
  }

  /** The body of one record, without its terminating '/'. */
  function RecordBody(name: seq<u8>, id: u64): (s: seq<u8>)
    ensures PlainName(name) ==> forall k :: 0 <= k < |s| ==> s[k] != Slash
  {
    name + [Colon] + IdToString(id)
  }

  /** dir_list_to_string: `name ':' id '/'` for each entry, in order. */
  function DirListToString(l: seq<DirEntry>): (s: seq<u8>)
    ensures l == [] <==> s == []
    ensures l != [] ==> s[|s| - 1] == Slash
  {
    if l == [] then []
    else RecordBody(l[0].name, l[0].id) + [Slash] + DirListToString(l[1..])
  }

  /** append_to_directory: src followed by the record of (filename, id). */
  function AppendToDirectory(src: seq<u8>, filename: seq<u8>, id: u64): (s: seq<u8>)
    ensures |s| > |src| && s[..|src|] == src && s[|s| - 1] == Slash
  {
    src + RecordBody(filename, id) + [Slash]
  }

  /** Listing one more entry adds its record at the end. */
  lemma {:induction false} DirListSnoc(l: seq<DirEntry>, e: DirEntry)
    ensures DirListToString(l + [e]) == DirListToString(l) + RecordBody(e.name, e.id) + [Slash]
  {
    if l != [] {
      assert (l + [e])[1..] == l[1..] + [e];
      DirListSnoc(l[1..], e);
    }
  }

  /** Appending to a listing is listing the extended entries. */
  lemma AppendIsSnoc(l: seq<DirEntry>, filename: seq<u8>, id: u64)
    ensures AppendToDirectory(DirListToString(l), filename, id) == DirListToString(l + [DirEntry(filename, id)])
  {
    DirListSnoc(l, DirEntry(filename, id));
  }

  // -------------------------------------------------------------------
  // Parsing

  /** The pieces getline(…, '/') yields: each up to the next '/', the last
      one also when no '/' ends it; an empty text yields none. */
  function Segments(s: seq<u8>): (segs: seq<seq<u8>>)
    ensures forall i, k :: 0 <= i < |segs| && 0 <= k < |segs[i]| ==> segs[i][k] != Slash
    decreases |s|
  {
    if s == [] then []
    else
      var i := IndexOf(s, Slash);
      if i == |s| then [s] else [s[..i]] + Segments(s[i + 1..])
  }

  /** A slash-free piece followed by '/' is the first segment. */
  lemma SegmentsCons(a: seq<u8>, b: seq<u8>)
    requires forall k :: 0 <= k < |a| ==> a[k] != Slash
    ensures Segments(a + [Slash] + b) == [a] + Segments(b)
  {
    SplitAt(a, b, Slash);
  }

  /** One record of parse_directory: the name up to the first ':' and the
      id read after it. */
  function ParseEntry(seg: seq<u8>): DirEntry {
    DirEntry(Before(seg, Colon), StringToId(After(seg, Colon)))
  }

  /** The body of a record with a plain name parses to that record's entry. */
  lemma ParseRecord(name: seq<u8>, id: u64)
    requires PlainName(name)
    ensures ParseEntry(RecordBody(name, id)) == DirEntry(name, id)
  {
    SplitAt(name, IdToString(id), Colon);
    IdRoundTrip(id, []);
  }

  function ParseAll(segs: seq<seq<u8>>): (l: seq<DirEntry>)
    ensures |l| == |segs|
    ensures forall i :: 0 <= i < |l| ==> l[i] == ParseEntry(segs[i])
  {
    if segs == [] then [] else [ParseEntry(segs[0])] + ParseAll(segs[1..])
  }

  /** parse_directory: one entry per segment, in order; the empty text
      gives no entry. */
  function ParseDirectory(src: seq<u8>): (l: seq<DirEntry>)
    ensures src == [] ==> l == []
    ensures |l| == |Segments(src)|
  {
    ParseAll(Segments(src))
  }

  /** Parsed names never hold ':' (the name stops there) or '/' (the
      segment stops there), so a parsed list always prints back faithfully. */
  lemma ParsedPlain(src: seq<u8>)
    ensures AllPlain(ParseDirectory(src))
  {
    var segs := Segments(src);
    var l := ParseDirectory(src);
    forall i | 0 <= i < |l|
      ensures PlainName(l[i].name)
    {
      assert l[i].name <= segs[i];
    }
  }

  /** Parsing a listing gives back its entries, for names without ':' or '/'. */
  lemma {:induction false} ParseDirListToString(l: seq<DirEntry>)
    requires AllPlain(l)
    ensures ParseDirectory(DirListToString(l)) == l
  {
    if l != [] {
      var e := l[0];
      var body := RecordBody(e.name, e.id);
      SegmentsCons(body, DirListToString(l[1..]));
      ParseRecord(e.name, e.id);
      ParseDirListToString(l[1..]);
      assert ParseDirectory(DirListToString(l)) == [e] + ParseDirectory(DirListToString(l[1..]));
    }
  }

  /** Listing a parsed directory and parsing again changes nothing. */
  lemma ReparseIsStable(src: seq<u8>)
    ensures ParseDirectory(DirListToString(ParseDirectory(src))) == ParseDirectory(src)
  {
    ParsedPlain(src);
    ParseDirListToString(ParseDirectory(src));
  }

  /** Appending a record to a listing and parsing adds exactly that entry. */
  lemma ParseAppend(l: seq<DirEntry>, filename: seq<u8>, id: u64)
    requires AllPlain(l) && PlainName(filename)
    ensures ParseDirectory(AppendToDirectory(DirListToString(l), filename, id)) == l + [DirEntry(filename, id)]
  {
    AppendIsSnoc(l, filename, id);
    ParseDirListToString(l + [DirEntry(filename, id)]);
  }

  // -------------------------------------------------------------------
  // Lookup and removal on entry lists

  /** The id of the first entry named name, if any. */
  function FindEntry(l: seq<DirEntry>, name: seq<u8>): (r: Option<u64>)
    ensures r.None? <==> forall i :: 0 <= i < |l| ==> l[i].name != name
    ensures r.Some? ==> exists i :: 0 <= i < |l| && l[i].name == name && l[i].id == r.value
                                  && forall j :: 0 <= j < i ==> l[j].name != name
  {
    if l == [] then None
    else if l[0].name == name then Some(l[0].id)
    else
      var r := FindEntry(l[1..], name);
      if r.Some? then
        var i :| 0 <= i < |l[1..]| && l[1..][i].name == name && l[1..][i].id == r.value
                 && forall j :: 0 <= j < i ==> l[1..][j].name != name;
        assert l[i + 1].name == name && l[i + 1].id == r.value;
        r
      else r
  }

  /** The entries not named name, in order. */
  function Without(l: seq<DirEntry>, name: seq<u8>): (l': seq<DirEntry>)
    ensures |l'| <= |l|
    ensures forall i :: 0 <= i < |l'| ==> l'[i].name != name
    ensures forall e :: e in l' <==> e in l && e.name != name
  {
    if l == [] then []
    else if l[0].name == name then Without(l[1..], name)
    else [l[0]] + Without(l[1..], name)
  }

  /** After removing name, nothing is found under name, and every other
      name is found as before. */
  lemma {:induction false} FindWithout(l: seq<DirEntry>, name: seq<u8>, other: seq<u8>)
    ensures FindEntry(Without(l, name), name) == None
    ensures other != name ==> FindEntry(Without(l, name), other) == FindEntry(l, other)
  {
    if l != [] {
      FindWithout(l[1..], name, other);
    }
  }

  /** Appending an entry: a name already listed is found as before; a name
      not listed is found only if it is the appended one, under its id. */
  lemma {:induction false} FindSnoc(l: seq<DirEntry>, e: DirEntry, name: seq<u8>)
    ensures FindEntry(l, name).Some? ==> FindEntry(l + [e], name) == FindEntry(l, name)
    ensures FindEntry(l, name).None? ==> FindEntry(l + [e], name) == if e.name == name then Some(e.id) else None
  {
    if l != [] {
      assert (l + [e])[1..] == l[1..] + [e];
      FindSnoc(l[1..], e, name);
    }
  }

  // -------------------------------------------------------------------
  // Removal on text

  /** What getline(…) reads up to the end of the line. */
  function Line(s: seq<u8>): (t: seq<u8>)
    ensures t <= s
  {
    Before(s, Newline)
  }

  /** rm_from_directory over segments: a segment whose name is filename is
      dropped; any other is written back as name ':' rest-of-line '/'. */
  function RemoveSegments(segs: seq<seq<u8>>, filename: seq<u8>): (s: seq<u8>)
  {
    if segs == [] then []
    else
      var name := Before(segs[0], Colon);
      var rest := RemoveSegments(segs[1..], filename);
      if name == filename then rest
      else name + [Colon] + Line(After(segs[0], Colon)) + [Slash] + rest
  }

  /** rm_from_directory. */
  function RmFromDirectory(src: seq<u8>, filename: seq<u8>): (s: seq<u8>)
  {
    RemoveSegments(Segments(src), filename)
  }

  /** Reading an id stops at the first non-digit, so cutting the text at
      the end of its line does not change the id. */
  lemma {:induction false} LeadingDigitsOfLine(s: seq<u8>)
    ensures LeadingDigits(Before(s, Newline)) == LeadingDigits(s)
  {
    if s != [] && IsDigit(s[0]) {
      assert Before(s, Newline) == [s[0]] + Before(s[1..], Newline);
      LeadingDigitsOfLine(s[1..]);
    }
  }

  /** A record written back by rm_from_directory parses to the entry its
      segment parsed to. */
  lemma RewrittenEntry(seg: seq<u8>)
    requires forall k :: 0 <= k < |seg| ==> seg[k] != Slash
    ensures var name := Before(seg, Colon);
            var body := name + [Colon] + Line(After(seg, Colon));
            && (forall k :: 0 <= k < |body| ==> body[k] != Slash)
            && ParseEntry(body) == ParseEntry(seg)
  {
    var name := Before(seg, Colon);
    var tail := After(seg, Colon);
    SplitAt(name, Line(tail), Colon);
    LeadingDigitsOfLine(tail);
    if IndexOf(seg, Colon) < |seg| {
      assert tail == seg[|name| + 1..];
    }
  }

  /** rm_from_directory drops every record named filename and keeps every
      other record, in order, with its name and id: on any text. */
  lemma {:induction false} ParseRemoveSegments(segs: seq<seq<u8>>, filename: seq<u8>)
    requires forall i, k :: 0 <= i < |segs| && 0 <= k < |segs[i]| ==> segs[i][k] != Slash
    ensures ParseDirectory(RemoveSegments(segs, filename)) == Without(ParseAll(segs), filename)
  {
    if segs != [] {
      var name := Before(segs[0], Colon);
      var rest := RemoveSegments(segs[1..], filename);
      ParseRemoveSegments(segs[1..], filename);
      assert ParseAll(segs)[1..] == ParseAll(segs[1..]);
      if name != filename {
        var body := name + [Colon] + Line(After(segs[0], Colon));
        RewrittenEntry(segs[0]);
        SegmentsCons(body, rest);
        assert RemoveSegments(segs, filename) == body + [Slash] + rest;
      }
    }
  }

  /** The text form of removal agrees with removal on the parsed entries. */
  lemma ParseRmFromDirectory(src: seq<u8>, filename: seq<u8>)
    ensures ParseDirectory(RmFromDirectory(src, filename)) == Without(ParseDirectory(src), filename)
  {
    ParseRemoveSegments(Segments(src), filename);
  }

  /** On a listing of plain names, removal removes exactly the named records. */
  lemma RmFromListing(l: seq<DirEntry>, filename: seq<u8>)
    requires AllPlain(l)
    ensures ParseDirectory(RmFromDirectory(DirListToString(l), filename)) == Without(l, filename)
  {
    ParseRmFromDirectory(DirListToString(l), filename);
    ParseDirListToString(l);
  }
}
