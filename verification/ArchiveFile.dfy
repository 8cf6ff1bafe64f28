/** The loops of ArchiveElement::unparse and ArchiveElement::parse, proved to compute the functions of
    module Archive. */
module ArchiveFile {
  import opened Common
  import opened Archive

  // ---------------------------------------------------------------- unparse

  /** A prefix of a scan extended by one character. */
  lemma TakeOneMore(s: string, lo: nat, i: nat, rest: string)
    requires lo <= i < |s|
    ensures s[lo..i] + ([s[i]] + rest) == s[lo..i + 1] + rest
  {
  }

  lemma UpToStep(s: string, i: nat, c: char)
    requires i < |s|
    ensures UpTo(s[i..], c) == if s[i] == c then [] else [s[i]] + UpTo(s[i + 1..], c)
  {
    assert s[i..][1..] == s[i + 1..];
  }

  lemma UpToSpaceStep(s: string, i: nat, hi: nat)
    requires i < hi <= |s|
    ensures UpToSpace(s[i..hi]) == if s[i] == '/' || IsSpace(s[i]) then [] else [s[i]] + UpToSpace(s[i + 1..hi])
  {
    hide IsSpace;
    assert s[i..hi][1..] == s[i + 1..hi];
  }

  lemma UpToEnds(c: char)
    ensures UpTo([], c) == [] && UpToSpace([]) == []
  {
  }

  /** Look for a slash, and for white space before it. */
  method CheckName(name: string) returns (nlen: nat, mustLong: bool)
    ensures nlen <= |name| && name[..nlen] == UpTo(name, '/') && mustLong == HasSpace(name[..nlen])
  {
    hide IsSpace, UpTo, HasSpace;
    nlen, mustLong := |name|, false;
    NoSpace();
    var i := 0;
    assert name[0..] == name && name[0..0] == [];
    while i < |name|
      invariant 0 <= i <= |name| && nlen == |name|
      invariant UpTo(name, '/') == name[0..i] + UpTo(name[i..], '/')
      invariant mustLong == HasSpace(name[0..i])
    {
      UpToStep(name, i, '/');
      if name[i] == '/' {
        nlen := i;
        assert name[..i] == name[0..i] == name[0..i] + [];
        return;
      }
      TakeOneMore(name, 0, i, UpTo(name[i + 1..], '/'));
      assert name[0..i + 1] == name[0..i] + [name[i]];
      SpaceInMore(name[0..i], name[i]);
      if IsSpace(name[i]) {
        mustLong := true;
      }
      i := i + 1;
    }
    UpToEnds('/');
    assert name[..i] == name[0..i] == name[0..i] + [];
  }

  lemma NoSpace()
    ensures !HasSpace([])
  {
  }

  lemma SpaceInMore(t: string, c: char)
    ensures HasSpace(t + [c]) == (HasSpace(t) || IsSpace(c))
  {
    hide IsSpace;
    var u := t + [c];
    if HasSpace(t) {
      var i :| 0 <= i < |t| && IsSpace(t[i]);
      assert u[i] == t[i];
    }
    assert u[|t|] == c;
  }

  lemma MemberIs(e: Element, column: string, contents: string)
    requires Ints(e) && column == NameColumn(UpTo(e.name, '/')) && contents == Contents(e)
    ensures |column| == 16
    ensures Member(e)
            == column + Columns(e, |contents|) + contents + (if |contents| % 2 == 1 then "\n" else "")
  {
    NameIsShorter(e);
    NameColumnIs16(UpTo(e.name, '/'));
  }

  /** The name column and what goes behind the header. */
  method Layout(e: Element) returns (column: string, contents: string)
    requires Ints(e)
    ensures column == NameColumn(UpTo(e.name, '/')) && contents == Contents(e)
  {
    hide UpTo, HasSpace, Padded, Numeral;
    var nlen, mustLong := CheckName(e.name);
    NameHasNoSlash(e.name, nlen);
    if (nlen >= 3 && e.name[0] == '#' && e.name[1] == '1' && e.name[2] == '/') || mustLong || nlen > 14 {
      column := "#1/" + Padded(Numeral(nlen, 10), 13);
      contents := e.name[..nlen] + e.data;
    } else {
      column := Padded(UpTo(e.name[..nlen], '\0'), 16);
      contents := e.data;
    }
  }

  /** Write one member; grown is what want_size grows by. */
  method AppendMember(sa: string, e: Element) returns (sa': string, grown: nat)
    requires Ints(e)
    ensures sa' == sa + Member(e) && grown == |Member(e)|
  {
    hide UpTo, HasSpace, Columns, NameColumn, Contents, Member, Ints;
    var column, contents := Layout(e);
    MemberIs(e, column, contents);
    var wrote := |contents|;
    sa' := sa + column + Columns(e, wrote) + contents;
    grown := 60 + wrote;
    if wrote % 2 == 1 {
      sa' := sa' + "\n";
      grown := grown + 1;
    }
    assert sa' == sa + Member(e);
  }

  lemma NameHasNoSlash(name: string, nlen: nat)
    requires nlen <= |name| && name[..nlen] == UpTo(name, '/')
    ensures nlen >= 3 ==> name[2] != '/'
  {
    if nlen >= 3 {
      assert name[2] == name[..nlen][2];
    }
  }

  method UnparseArchive(ar: seq<Element>) returns (sa: string, wantSize: nat)
    requires AllInts(ar)
    ensures sa == Unparse(ar) && wantSize == |sa|
  {
    hide UpTo, HasSpace, Columns, Contents, NameColumn;
    sa, wantSize := MAGIC, 8;
    var k := 0;
    assert ar[0..] == ar;
    while k < |ar|
      invariant 0 <= k <= |ar| && wantSize == |sa|
      invariant AllInts(ar[k..])
      invariant Unparse(ar) == sa + Members(ar[k..])
    {
      var e := ar[k];
      assert ar[k..][0] == e && ar[k..][1..] == ar[k + 1..];
      ghost var more := Members(ar[k + 1..]);
      ghost var before := sa;
      if Live(e) {
        var grown;
        sa, grown := AppendMember(sa, e);
        wantSize := wantSize + grown;
        assert sa + more == before + (Member(e) + more);
      } else {
        assert "" + more == more;
      }
      k := k + 1;
    }
    assert sa + [] == sa;
  }

  // ---------------------------------------------------------------- parse

  /** The end of the name that starts at lo: a slash, white space, or hi. */
  method ScanName(s: string, lo: nat, hi: nat) returns (x: nat)
    requires lo <= hi <= |s|
    ensures lo <= x <= hi && s[lo..x] == UpToSpace(s[lo..hi])
  {
    hide IsSpace, UpToSpace;
    x := lo;
    while x < hi && s[x] != '/' && !IsSpace(s[x])
      invariant lo <= x <= hi
      invariant UpToSpace(s[lo..hi]) == s[lo..x] + UpToSpace(s[x..hi])
    {
      UpToSpaceStep(s, x, hi);
      TakeOneMore(s, lo, x, UpToSpace(s[x + 1..hi]));
      x := x + 1;
    }
    if x < hi {
      UpToSpaceStep(s, x, hi);
    }
    UpToEnds('/');
    assert s[lo..x] + [] == s[lo..x];
  }

  /** Read the name of the member whose header is at s. */
  method ReadName(str: string, s: nat, names: string) returns (name: string, bsd: int)
    requires s + 60 <= |str|
    ensures HeaderName(str[s..], names) == (name, bsd)
  {
    hide IsSpace, ReadUint;
    ghost var h := str[s..];
    name, bsd := [], 0;
    if str[s] == '/' && IsDigit(str[s + 1], 10) {
      assert h[1..16] == str[s + 1..s + 16];
      var offset := ReadUint(str[s + 1..s + 16], 10);
      if names != [] && offset >= 0 && offset < |names| {
        var end := ScanName(names, offset, |names|);
        assert names[offset..|names|] == names[offset..];
        name := names[offset..end];
      }
    } else if str[s] == '#' && str[s + 1] == '1' && str[s + 2] == '/' && IsDigit(str[s + 3], 10) {
      assert h[3..16] == str[s + 3..s + 16];
      bsd := ReadUint(str[s + 3..s + 16], 10);
    } else {
      var x := ScanName(str, s, s + 16);
      assert h[..16] == str[s..s + 16];
      name := str[s..x];
    }
  }

  /** One round of the loop over sections. */
  lemma SectionAt(str: string, s: nat, names: string, ar: seq<Element>, size: int)
    requires s + 60 <= |str| && size == ReadUint(str[s + 48..s + 58], 10)
    ensures var h := str[s..];
            var end := s + 60 + size;
            Sections(h, names, ar)
            == if str[s + 58] != '`' || str[s + 59] != '\n' || size < 0 || end > |str| then Outcome(ar, false)
               else if !IsLongNames(h) && HeaderName(h, names).1 > size then Outcome(ar, false)
               else
                 var names' := if IsLongNames(h) then str[s + 60..end] else names;
                 var ar' := if IsLongNames(h) then ar else ar + [ReadElement(h, names, size)];
                 if size % 2 == 0 then Sections(str[end..], names', ar')
                 else if end == |str| then Outcome(ar', false)
                 else Sections(str[end + 1..], names', ar')
  {
    hide IsSpace, ReadUint, HeaderName, ReadElement, IsLongNames;
    var h := str[s..];
    assert h[48..58] == str[s + 48..s + 58] && h[58] == str[s + 58] && h[59] == str[s + 59];
    if size >= 0 && s + 60 + size <= |str| {
      assert h[60..60 + size] == str[s + 60..s + 60 + size] && h[60 + size..] == str[s + 60 + size..];
      if s + 60 + size < |str| {
        assert h[60 + size + 1..] == str[s + 60 + size + 1..];
      }
    }
  }

  lemma SectionsEnd(str: string, s: nat, names: string, ar: seq<Element>)
    requires s <= |str| < s + 60
    ensures Sections(str[s..], names, ar) == Outcome(ar, s == |str|)
  {
  }

  method ParseArchive(str: string) returns (ar: seq<Element>, ok: bool)
    ensures Outcome(ar, ok) == Parse(str)
  {
    hide IsSpace, ReadUint, HeaderName, ReadElement, Sections;
    ar := [];
    if |str| <= 8 || str[..8] != MAGIC {
      return ar, false;
    }
    var s: nat := 8;
    var names := "";
    while s + 60 <= |str|
      invariant s <= |str| && Parse(str) == Sections(str[s..], names, ar)
      decreases |str| - s
    {
      var begin := s + 60;
      var size := ReadUint(str[s + 48..s + 58], 10);
      SectionAt(str, s, names, ar, size);
      if str[s + 58] != '`' || str[s + 59] != '\n' {
        return ar, false;
      }
      if str[s] == '/' && str[s + 1] == '/' && IsSpace(str[s + 2]) {
        if size < 0 || begin + size > |str| {
          return ar, false;
        }
        names := str[begin..begin + size];
      } else {
        var name, bsd := ReadName(str, s, names);
        if size < 0 || begin + size > |str| {
          return ar, false;
        }
        if bsd > 0 && size < bsd {
          return ar, false;
        }
        var e := MakeElement(str, s, name, bsd, size, names);
        ar := ar + [e];
      }
      s := begin + size;
      if size % 2 == 1 {
        if s == |str| {
          return ar, false;
        }
        s := s + 1;
      }
    }
    SectionsEnd(str, s, names, ar);
    ok := s == |str|;
  }

  method MakeElement(str: string, s: nat, name: string, bsd: int, size: nat, ghost names: string) returns (e: Element)
    requires s + 60 + size <= |str| && HeaderName(str[s..], names) == (name, bsd) && bsd <= size
    ensures e == ReadElement(str[s..], names, size)
  {
    hide ReadUint, HeaderName;
    ghost var h := str[s..];
    var begin := s + 60;
    assert h[16..28] == str[s + 16..s + 28] && h[28..34] == str[s + 28..s + 34] && h[34..40] == str[s + 34..s + 40];
    assert h[40..48] == str[s + 40..s + 48] && h[60..60 + size] == str[begin..begin + size];
    e := Element(name, ReadUint(str[s + 16..s + 28], 10), ReadUint(str[s + 28..s + 34], 10),
                 ReadUint(str[s + 34..s + 40], 10), ReadUint(str[s + 40..s + 48], 8), str[begin..begin + size]);
    if bsd > 0 {
      assert h[60..60 + size][..bsd] == str[begin..begin + bsd];
      assert h[60..60 + size][bsd..] == str[begin + bsd..begin + size];
      e := e.(name := str[begin..begin + bsd], data := str[begin + bsd..begin + size]);
    }
  }
}
