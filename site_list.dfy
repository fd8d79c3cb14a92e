/** The site list as the view handles it. The stored file holds one record
    per line, `name<TAB>url<TAB>block<TAB>success`; the view shows only the
    domains, one per line, and saves the edited domains back as records
    whose block pattern is `DEFAULT_BLOCK`. */
module SiteList {
  import opened Wrappers
  import opened JsString

  /** The block pattern every saved record carries (overview.js line 188). */
  const DEFAULT_BLOCK: string :=
    "blocked" + "|" + "access.denied" + "|" + "captcha" + "|" + "cf-browser" + "|" + "challenge" + "|" + "verify"

  /** The block pattern is a single field on a single line. */
  lemma DefaultBlockIsOneField()
    ensures '\n' !in DEFAULT_BLOCK && '\t' !in DEFAULT_BLOCK
  {
    assert '\n' !in "blocked" && '\t' !in "blocked";
    assert '\n' !in "access.denied" && '\t' !in "access.denied";
    assert '\n' !in "captcha" && '\t' !in "captcha";
    assert '\n' !in "cf-browser" && '\t' !in "cf-browser";
    assert '\n' !in "challenge" && '\t' !in "challenge";
    assert '\n' !in "verify" && '\t' !in "verify";
  }

  /** A trimmed line that both the parser and the serialiser skip: blank, or
      a comment starting with '#'. */
  predicate IsSkipped(line: string) {
    line == [] || line[0] == '#'
  }

  // ---------------------------------------------------------------- parsing

  /** The URL a record names: its second tab field when that is not blank,
      else its first. */
  function UrlField(line: string): string {
    var parts := Split(line, '\t');
    if |parts| > 1 && Trim(parts[1]) != [] then Trim(parts[1]) else Trim(parts[0])
  }

  /** The domain one line of the stored file contributes, if any. */
  function LineDomain(raw: string): (r: Option<string>)
    ensures IsSkipped(Trim(raw)) ==> r == None
    ensures r.Some? ==> r.value != [] && IsTrimmed(r.value)
  {
    var line := Trim(raw);
    if IsSkipped(line) then None
    else
      var url := UrlField(line);
      if url == [] then None
      else
        var domain := Domain(url);
        if domain == [] then None else Some(domain)
  }

  /** The values `f` yields for `lines`, in order, leaving out the lines it
      yields nothing for. */
  function FilterMap(f: string -> Option<string>, lines: seq<string>): seq<string> {
    if lines == [] then []
    else FilterMap(f, lines[..|lines| - 1]) + Emit(f(lines[|lines| - 1]))
  }

  function Emit(d: Option<string>): seq<string> {
    match d
    case Some(v) => [v]
    case None => []
  }

  /** The domains of a sequence of stored lines, in order (the loop of
      lines 100-109, pushing at the end). */
  function Collect(lines: seq<string>): seq<string> {
    FilterMap(LineDomain, lines)
  }

  /** `FilterMap` reads one more element by appending what `f` yields for it. */
  lemma FilterMapSnoc(f: string -> Option<string>, init: seq<string>, x: string)
    ensures FilterMap(f, init + [x]) == FilterMap(f, init) + Emit(f(x))
  {
    assert (init + [x])[..|init|] == init;
  }

  lemma FilterMapStep(f: string -> Option<string>, lines: seq<string>, i: nat)
    requires i < |lines|
    ensures FilterMap(f, lines[..i + 1]) == FilterMap(f, lines[..i]) + Emit(f(lines[i]))
  {
    assert lines[..i + 1][..i] == lines[..i];
  }

  /** Reading one more line appends that line's domain, if any. */
  lemma CollectSnoc(init: seq<string>, line: string)
    ensures Collect(init + [line]) == Collect(init) + Emit(LineDomain(line))
  {
    FilterMapSnoc(LineDomain, init, line);
  }

  /** The loop of lines 100-109 after one more line. */
  lemma CollectStep(lines: seq<string>, i: nat)
    requires i < |lines|
    ensures Collect(lines[..i + 1]) == Collect(lines[..i]) + Emit(LineDomain(lines[i]))
  {
    FilterMapStep(LineDomain, lines, i);
  }

  /** Every value `FilterMap` keeps satisfies `P` when every value `f`
      yields does. */
  lemma {:induction false} FilterMapAll(f: string -> Option<string>, P: string -> bool, lines: seq<string>)
    requires forall line :: f(line).Some? ==> P(f(line).value)
    ensures forall i | 0 <= i < |FilterMap(f, lines)| :: P(FilterMap(f, lines)[i])
    decreases |lines|
  {
    if lines != [] {
      FilterMapAll(f, P, lines[..|lines| - 1]);
    }
  }

  /** Every domain read is non-empty and trimmed. */
  lemma CollectWellFormed(lines: seq<string>)
    ensures forall i | 0 <= i < |Collect(lines)| :: Collect(lines)[i] != [] && IsTrimmed(Collect(lines)[i])
  {
    FilterMapAll(LineDomain, d => d != [] && IsTrimmed(d), lines);
  }

  /** The domains a stored site-list file holds. */
  function SiteDomains(content: string): (domains: seq<string>)
    ensures forall i | 0 <= i < |domains| :: domains[i] != [] && IsTrimmed(domains[i]) && '\n' !in domains[i]
  {
    var lines := Split(content, '\n');
    SplitPartsLackSeparator(content, '\n');
    CollectWellFormed(lines);
    CollectLacks(lines, '\n');
    Collect(lines)
  }

  /** Joining the domains of a file with line breaks and splitting the text
      again gives back those domains. */
  lemma SiteDomainsRoundTrip(content: string)
    ensures SiteDomains(content) != [] ==> Split(Join(SiteDomains(content), '\n'), '\n') == SiteDomains(content)
    ensures SiteDomains(content) == [] ==> Join(SiteDomains(content), '\n') == []
  {
    var domains := SiteDomains(content);
    if domains != [] {
      SplitParts(content, '\n');
      CollectLacks(Split(content, '\n'), '\n');
      SplitJoin(domains, '\n');
    }
  }

  /** The textarea text for a stored site-list file: its domains, one per
      line (lines 96-111). */
  method SitesText(content: string) returns (text: string)
    ensures text == Join(SiteDomains(content), '\n')
    ensures SiteDomains(content) != [] ==> Split(text, '\n') == SiteDomains(content)
    ensures SiteDomains(content) == [] ==> text == []
  {
    var lines := Split(content, '\n');
    var domains: seq<string> := [];
    for i := 0 to |lines|
      invariant domains == Collect(lines[..i])
    {
      CollectStep(lines, i);
      var line := Trim(lines[i]);
      if IsSkipped(line) {
        continue;
      }
      var url := UrlField(line);
      if url != [] {
        var domain := Domain(url);
        if domain != [] {
          domains := domains + [domain];
        }
      }
    }
    assert lines[..|lines|] == lines;
    text := Join(domains, '\n');
    SiteDomainsRoundTrip(content);
  }

  /** A line's domain holds only characters of the line. */
  lemma LineDomainLacks(raw: string, c: char)
    requires c !in raw
    ensures LineDomain(raw).Some? ==> c !in LineDomain(raw).value
  {
    TrimLacks(raw, c);
    UrlFieldLacks(Trim(raw), c);
    DomainLacks(UrlField(Trim(raw)), c);
  }

  /** The URL field holds only characters of the line. */
  lemma UrlFieldLacks(line: string, c: char)
    requires c !in line
    ensures c !in UrlField(line)
  {
    var parts := Split(line, '\t');
    SplitLacks(line, '\t', c);
    TrimLacks(parts[0], c);
    if |parts| > 1 { TrimLacks(parts[1], c); }
  }

  /** `FilterMap` adds no character when `f` adds none. */
  lemma {:induction false} FilterMapLacks(f: string -> Option<string>, lines: seq<string>, c: char)
    requires forall line :: c !in line && f(line).Some? ==> c !in f(line).value
    requires forall i | 0 <= i < |lines| :: c !in lines[i]
    ensures forall i | 0 <= i < |FilterMap(f, lines)| :: c !in FilterMap(f, lines)[i]
    decreases |lines|
  {
    if lines != [] {
      var init := lines[..|lines| - 1];
      assert forall i | 0 <= i < |init| :: init[i] == lines[i];
      FilterMapLacks(f, init, c);
    }
  }

  /** The domains read from lines hold only characters of those lines. */
  lemma CollectLacks(lines: seq<string>, c: char)
    requires forall i | 0 <= i < |lines| :: c !in lines[i]
    ensures forall i | 0 <= i < |Collect(lines)| :: c !in Collect(lines)[i]
  {
    forall line | c !in line && LineDomain(line).Some? ensures c !in LineDomain(line).value {
      LineDomainLacks(line, c);
    }
    FilterMapLacks(LineDomain, lines, c);
  }

  /** `FilterMap` of lines that all yield a value is the sequence of those
      values. */
  lemma {:induction false} FilterMapAllSome(f: string -> Option<string>, lines: seq<string>, values: seq<string>)
    requires |lines| == |values|
    requires forall i | 0 <= i < |lines| :: f(lines[i]) == Some(values[i])
    ensures FilterMap(f, lines) == values
    decreases |lines|
  {
    if lines != [] {
      var n := |lines| - 1;
      FilterMapAllSome(f, lines[..n], values[..n]);
      assert values == values[..n] + [values[n]];
    }
  }

  /** `FilterMap` reads the lines one after another. */
  lemma {:induction false} FilterMapAppend(f: string -> Option<string>, a: seq<string>, b: seq<string>)
    ensures FilterMap(f, a + b) == FilterMap(f, a) + FilterMap(f, b)
    decreases |b|
  {
    if b == [] {
      assert a + b == a;
    } else {
      var b' := b[..|b| - 1];
      assert (a + b)[..|a + b| - 1] == a + b';
      assert (a + b)[|a + b| - 1] == b[|b| - 1];
      FilterMapAppend(f, a, b');
    }
  }

  /** The parser is a homomorphism: the lines are read one after another. */
  lemma CollectAppend(a: seq<string>, b: seq<string>)
    ensures Collect(a + b) == Collect(a) + Collect(b)
  {
    FilterMapAppend(LineDomain, a, b);
  }

  /** A blank or comment line yields no domain. */
  lemma CollectSkipped(line: string)
    requires IsSkipped(Trim(line))
    ensures Collect([line]) == []
  {
    CollectSnoc([], line);
    assert [] + [line] == [line];
  }

  /** A line `f` yields nothing for can be dropped from anywhere. */
  lemma FilterMapSkip(f: string -> Option<string>, before: seq<string>, x: string, after: seq<string>)
    requires f(x) == None
    ensures FilterMap(f, before + [x] + after) == FilterMap(f, before + after)
  {
    assert FilterMap(f, [x]) == [] by {
      assert [x][..0] == [];
    }
    FilterMapAppend(f, before + [x], after);
    FilterMapAppend(f, before, [x]);
    FilterMapAppend(f, before, after);
    assert FilterMap(f, before) + [] == FilterMap(f, before);
  }

  /** A blank or comment line contributes nothing, wherever it stands. */
  lemma SkippedLineIgnored(before: seq<string>, line: string, after: seq<string>)
    requires IsSkipped(Trim(line))
    ensures Collect(before + [line] + after) == Collect(before + after)
  {
    FilterMapSkip(LineDomain, before, line, after);
  }

  /** The file made of the given lines holds the domains of those lines. */
  lemma SiteDomainsOfLines(lines: seq<string>)
    requires forall i | 0 <= i < |lines| :: '\n' !in lines[i]
    ensures SiteDomains(Join(lines, '\n')) == Collect(lines)
  {
    if lines == [] {
      assert Split([], '\n') == [[]];
      CollectSkipped([]);
    } else {
      SplitJoin(lines, '\n');
    }
  }

  /** In a stored file, deleting a blank or comment line changes no domain. */
  lemma SkippedRecordIgnored(before: seq<string>, line: string, after: seq<string>)
    requires IsSkipped(Trim(line))
    requires forall i | 0 <= i < |before| :: '\n' !in before[i]
    requires forall i | 0 <= i < |after| :: '\n' !in after[i]
    requires '\n' !in line
    ensures SiteDomains(Join(before + [line] + after, '\n')) == SiteDomains(Join(before + after, '\n'))
  {
    LinesLack(before, [line], '\n');
    LinesLack(before + [line], after, '\n');
    LinesLack(before, after, '\n');
    SiteDomainsOfLines(before + [line] + after);
    SiteDomainsOfLines(before + after);
    SkippedLineIgnored(before, line, after);
  }

  /** Two runs of lines without `c` make one. */
  lemma LinesLack(a: seq<string>, b: seq<string>, c: char)
    requires forall i | 0 <= i < |a| :: c !in a[i]
    requires forall i | 0 <= i < |b| :: c !in b[i]
    ensures forall i | 0 <= i < |a + b| :: c !in (a + b)[i]
  {
    forall i | 0 <= i < |a + b| ensures c !in (a + b)[i] {
      if i >= |a| { assert (a + b)[i] == b[i - |a|]; }
    }
  }

  // ---------------------------------------------------------------- saving

  /** The textarea's lines, trimmed, without blank and comment lines
      (lines 193-194). */
  function Kept(lines: seq<string>): (r: seq<string>)
    ensures forall i | 0 <= i < |r| :: !IsSkipped(r[i]) && IsTrimmed(r[i])
    ensures (forall i | 0 <= i < |lines| :: '\n' !in lines[i]) ==> forall i | 0 <= i < |r| :: '\n' !in r[i]
  {
    if lines == [] then []
    else
      var t := Trim(lines[0]);
      (if IsSkipped(t) then [] else [t]) + Kept(lines[1..])
  }

  function KeptLines(text: string): (r: seq<string>)
    ensures forall i | 0 <= i < |r| :: !IsSkipped(r[i]) && IsTrimmed(r[i]) && '\n' !in r[i]
  {
    SplitParts(Trim(text), '\n');
    Kept(Split(Trim(text), '\n'))
  }

  /** The domain written for one textarea line: the line reduced to its
      domain, or the line itself when that reduction is empty (line 196). */
  function StoredDomain(line: string): (d: string)
    ensures line != [] ==> d != []
    ensures forall c | c !in line :: c !in d
  {
    var domain := Domain(line);
    assert forall c | c !in line :: c !in domain by {
      forall c | c !in line ensures c !in domain {
        DomainLacks(line, c);
      }
    }
    if domain == [] then line else domain
  }

  /** The record name: the text before the first '.', or the whole domain
      when that text is empty (line 197). */
  function Slug(domain: string): (slug: string)
    ensures |slug| <= |domain| && slug == domain[..|slug|]
    ensures domain != [] ==> slug != []
    ensures slug != domain ==> '.' !in slug && domain[|slug|] == '.'
    ensures slug == domain ==> '.' !in domain || domain[0] == '.'
  {
    var first := Split(domain, '.')[0];
    if first == [] then domain else first
  }

  /** The four fields of the record saved for one textarea line: the slug,
      the domain, `DEFAULT_BLOCK` and the slug again (line 198). */
  function Fields(line: string): (f: seq<string>)
    ensures |f| == 4
    ensures line != [] ==> forall x | x in f :: |x| > 0
    ensures '\t' !in line ==> forall x | x in f :: '\t' !in x
    ensures '\n' !in line ==> forall x | x in f :: '\n' !in x
  {
    var domain := StoredDomain(line);
    var slug := Slug(domain);
    FieldValuesLack(line, '\t');
    FieldValuesLack(line, '\n');
    FieldValuesNonEmpty(line);
    DefaultBlockIsOneField();
    FourFields(line, slug, domain, DEFAULT_BLOCK);
    [slug, domain, DEFAULT_BLOCK, slug]
  }

  /** Four fields built from a slug, a domain and a block pattern, none of
      which holds a tab or line break the line does not hold. */
  lemma FourFields(line: string, slug: string, domain: string, block: string)
    requires |block| > 0 && '\t' !in block && '\n' !in block
    requires line != [] ==> |slug| > 0 && |domain| > 0
    requires '\t' !in line ==> '\t' !in slug && '\t' !in domain
    requires '\n' !in line ==> '\n' !in slug && '\n' !in domain
    ensures line != [] ==> forall x | x in [slug, domain, block, slug] :: |x| > 0
    ensures '\t' !in line ==> forall x | x in [slug, domain, block, slug] :: '\t' !in x
    ensures '\n' !in line ==> forall x | x in [slug, domain, block, slug] :: '\n' !in x
  {
  }

  /** The slug and the domain saved for a non-empty line are not empty,
      and neither is the block pattern. */
  lemma FieldValuesNonEmpty(line: string)
    ensures |DEFAULT_BLOCK| > 0
    ensures line != [] ==> |StoredDomain(line)| > 0 && |Slug(StoredDomain(line))| > 0
  {
  }

  /** The slug and the domain saved for a line hold no tab or line break
      the line does not hold, and neither does the block pattern. */
  lemma FieldValuesLack(line: string, c: char)
    requires c == '\t' || c == '\n'
    ensures c !in line ==> c !in StoredDomain(line) && c !in Slug(StoredDomain(line)) && c !in DEFAULT_BLOCK
  {
    if c !in line {
      SlugLacks(StoredDomain(line), c);
      DefaultBlockIsOneField();
    }
  }

  /** One record of the saved file: its fields joined by tabs. A line
      without tabs gives a record that splits back into exactly its four
      fields; a line without line breaks gives a record on one line. */
  function Record(line: string): (r: string)
    ensures '\t' !in line ==> Split(r, '\t') == Fields(line)
    ensures '\n' !in line ==> '\n' !in r
  {
    JoinFields(line, Fields(line));
    Join(Fields(line), '\t')
  }

  /** Fields that hold no tab split back out of their tab-joined text, and
      fields that hold no line break join into one line. */
  lemma JoinFields(line: string, fields: seq<string>)
    requires |fields| == 4
    requires '\t' !in line ==> forall x | x in fields :: '\t' !in x
    requires '\n' !in line ==> forall x | x in fields :: '\n' !in x
    ensures '\t' !in line ==> Split(Join(fields, '\t'), '\t') == fields
    ensures '\n' !in line ==> '\n' !in Join(fields, '\t')
  {
    if '\t' !in line {
      assert forall i | 0 <= i < |fields| :: '\t' !in fields[i] by {
        forall i | 0 <= i < |fields| ensures '\t' !in fields[i] {
          assert fields[i] in fields;
        }
      }
      SplitJoin(fields, '\t');
    }
    if '\n' !in line {
      assert forall i | 0 <= i < |fields| :: '\n' !in fields[i] by {
        forall i | 0 <= i < |fields| ensures '\n' !in fields[i] {
          assert fields[i] in fields;
        }
      }
      JoinLacks(fields, '\t', '\n');
    }
  }

  /** The records of the kept lines, one per line, each on one line when
      its textarea line is. */
  function Records(lines: seq<string>): (r: seq<string>)
    ensures |r| == |lines| && forall i | 0 <= i < |r| :: r[i] == Record(lines[i])
    ensures forall i | 0 <= i < |r| :: '\n' !in lines[i] ==> '\n' !in r[i]
  {
    seq(|lines|, i requires 0 <= i < |lines| => Record(lines[i]))
  }

  /** The file content the view sends to `set_sites` (lines 193-199): one
      line per kept textarea line, each that line's record. */
  function SaveContent(text: string): (content: string)
    ensures KeptLines(text) != [] ==> Split(content, '\n') == Records(KeptLines(text))
    ensures KeptLines(text) == [] ==> content == []
  {
    var records := Records(KeptLines(text));
    var content := Join(records, '\n');
    assert KeptLines(text) != [] ==> Split(content, '\n') == records by {
      if KeptLines(text) != [] {
        var kept := KeptLines(text);
        assert forall i | 0 <= i < |records| :: '\n' !in records[i] by {
          forall i | 0 <= i < |records| ensures '\n' !in records[i] {
            assert '\n' !in kept[i];
          }
        }
        SplitJoin(records, '\n');
      }
    }
    content
  }

  /** The slug holds only characters of the domain. */
  lemma SlugLacks(domain: string, c: char)
    requires c !in domain
    ensures c !in Slug(domain)
  {
    var slug := Slug(domain);
    assert slug == domain[..|slug|];
    assert c !in domain[..|slug|];
  }

  /** No field holds a character that none of its parts holds. */
  lemma FieldSeqLacks(slug: string, domain: string, block: string, last: string, c: char)
    requires c !in slug && c !in domain && c !in block && c !in last
    ensures forall i | 0 <= i < 4 :: c !in [slug, domain, block, last][i]
  {
  }

  // ---------------------------------------------------------------- round trip

  /** A textarea line whose record reads back as its domain: no tab, no line
      terminator, and a domain that is neither empty nor a comment. */
  predicate ReadsBack(line: string) {
    '\t' !in line && NoLineTerminator(line) && Domain(line) != [] && Domain(line)[0] != '#'
  }

  function Domains(lines: seq<string>): (r: seq<string>)
    ensures |r| == |lines| && forall i | 0 <= i < |r| :: r[i] == Domain(lines[i])
  {
    seq(|lines|, i requires 0 <= i < |lines| => Domain(lines[i]))
  }

  /** A stored line whose second tab field is not blank names the domain
      of that field, trimmed. */
  lemma LineDomainOfSecondField(raw: string)
    requires !IsSkipped(Trim(raw))
    requires var parts := Split(Trim(raw), '\t'); |parts| > 1 && Trim(parts[1]) != []
    ensures var d := Domain(Trim(Split(Trim(raw), '\t')[1]));
            LineDomain(raw) == if d == [] then None else Some(d)
  {
    var line := Trim(raw);
    assert UrlField(line) == Trim(Split(line, '\t')[1]);
  }

  /** A stored line with no second tab field, or a blank one, names the
      domain of its first field: a bare domain line is read as itself. */
  lemma LineDomainOfFirstField(raw: string)
    requires !IsSkipped(Trim(raw))
    requires var parts := Split(Trim(raw), '\t'); |parts| == 1 || Trim(parts[1]) == []
    ensures var u := Trim(Split(Trim(raw), '\t')[0]);
            LineDomain(raw) == if u == [] || Domain(u) == [] then None else Some(Domain(u))
  {
    var line := Trim(raw);
    assert UrlField(line) == Trim(Split(line, '\t')[0]);
  }

  /** Trimming four tab-joined fields whose first starts with something
      other than white space trims only the end of the last, which here
      repeats the first. */
  lemma TrimFields(slug: string, domain: string, block: string)
    requires slug != [] && !IsWhiteSpace(slug[0])
    ensures Trim(Join([slug, domain, block, slug], '\t')) == Join([slug, domain, block, TrimEnd(slug)], '\t')
  {
    var init := [slug, domain, block];
    ThreeAndOne(slug, domain, block, slug);
    ThreeAndOne(slug, domain, block, TrimEnd(slug));
    assert init[0] == slug && !IsWhiteSpace(slug[0]);
    TrimOfJoin(init, slug, '\t');
    JoinSnoc(init, TrimEnd(slug), '\t');
  }

  lemma ThreeAndOne(a: string, b: string, c: string, d: string)
    ensures [a, b, c, d] == [a, b, c] + [d]
  {
  }

  /** Trimming a record only trims the end of its last field. */
  lemma TrimRecord(line: string)
    requires ReadsBack(line)
    ensures var slug := Slug(Domain(line));
            Trim(Record(line)) == Join([slug, Domain(line), DEFAULT_BLOCK, TrimEnd(slug)], '\t')
  {
    var domain := Domain(line);
    assert StoredDomain(line) == domain;
    var slug := Slug(domain);
    assert slug[0] == domain[0];
    TrimFields(slug, domain, DEFAULT_BLOCK);
  }

  /** Reading a saved record gives back the line's domain. */
  lemma LineDomainOfRecord(line: string)
    requires ReadsBack(line)
    ensures LineDomain(Record(line)) == Some(Domain(line))
  {
    var domain := Domain(line);
    RecordTrimmedFields(line);
    TrimFixedPoint(domain);
    DomainIdempotent(line);
    LineDomainOfSecondField(Record(line));
  }

  /** The trimmed record of a line that reads back is neither blank nor a
      comment, and splits into the slug, the domain, the block pattern and
      the slug trimmed at its end. */
  lemma RecordTrimmedFields(line: string)
    requires ReadsBack(line)
    ensures var parts := Split(Trim(Record(line)), '\t');
            |parts| == 4 && parts[1] == Domain(line)
    ensures !IsSkipped(Trim(Record(line)))
  {
    var domain := Domain(line);
    var slug := Slug(domain);
    var last := TrimEnd(slug);
    var fields := [slug, domain, DEFAULT_BLOCK, last];
    TrimRecord(line);
    DomainLacks(line, '\t');
    SlugLacks(domain, '\t');
    assert '\t' !in last;
    DefaultBlockIsOneField();
    FieldSeqLacks(slug, domain, DEFAULT_BLOCK, last, '\t');
    SplitJoin(fields, '\t');
    JoinStartsWith(fields, '\t');
    assert slug[0] == domain[0];
  }

  /** Reading back records whose lines read back gives the lines' domains. */
  lemma CollectRecords(lines: seq<string>)
    requires forall i | 0 <= i < |lines| :: ReadsBack(lines[i])
    ensures Collect(Records(lines)) == Domains(lines)
  {
    var records := Records(lines);
    var domains := Domains(lines);
    forall i | 0 <= i < |records| ensures LineDomain(records[i]) == Some(domains[i]) {
      LineDomainOfRecord(lines[i]);
    }
    FilterMapAllSome(LineDomain, records, domains);
  }

  /** Saving the textarea and loading the saved file gives back the domains
      of the kept lines, in order. */
  lemma SaveThenLoad(text: string)
    requires forall i | 0 <= i < |KeptLines(text)| :: ReadsBack(KeptLines(text)[i])
    ensures SiteDomains(SaveContent(text)) == Domains(KeptLines(text))
  {
    var kept := KeptLines(text);
    if kept == [] {
      var empty: seq<string> := [[]];
      assert Split([], '\n') == empty;
      CollectSkipped([]);
    } else {
      CollectRecords(kept);
    }
  }

  /** A textarea line without '#', tab or line terminators, whose domain is
      not empty, shows up after reloading as its domain. */
  lemma ReloadedDomainsHaveNoPath(text: string)
    requires forall i | 0 <= i < |KeptLines(text)| :: ReadsBack(KeptLines(text)[i])
    ensures forall i | 0 <= i < |SiteDomains(SaveContent(text))| ::
              '/' !in SiteDomains(SaveContent(text))[i]
  {
    var kept := KeptLines(text);
    SaveThenLoad(text);
    forall i | 0 <= i < |kept| ensures '/' !in Domains(kept)[i] {
      DomainHasNoSlash(kept[i]);
    }
  }

  /** An empty textarea keeps no line. */
  lemma KeptLinesOfEmpty()
    ensures KeptLines([]) == []
  {
    var lines: seq<string> := [[]];
    assert Trim([]) == [];
    assert Split([], '\n') == lines;
    assert lines[1..] == [];
    assert Kept(lines) == [] + Kept([]);
  }

  /** Lines that would all be kept as they are, joined into a textarea,
      are kept as they are. */
  lemma KeptLinesOfJoin(lines: seq<string>)
    requires |lines| >= 1
    requires forall i | 0 <= i < |lines| :: lines[i] != [] && IsTrimmed(lines[i])
    requires forall i | 0 <= i < |lines| :: !IsSkipped(lines[i]) && '\n' !in lines[i]
    ensures KeptLines(Join(lines, '\n')) == lines
  {
    JoinTrimmed(lines, '\n');
    TrimFixedPoint(Join(lines, '\n'));
    SplitJoin(lines, '\n');
    KeptOfKept(lines);
  }

  /** Saving a line and saving its domain write the same record. */
  lemma RecordOfDomain(line: string)
    requires ReadsBack(line)
    ensures Record(Domain(line)) == Record(line)
  {
    DomainIdempotent(line);
    assert StoredDomain(Domain(line)) == StoredDomain(line);
  }

  lemma RecordsOfDomains(lines: seq<string>)
    requires forall i | 0 <= i < |lines| :: ReadsBack(lines[i])
    ensures Records(Domains(lines)) == Records(lines)
  {
    forall i | 0 <= i < |lines| ensures Record(Domains(lines)[i]) == Record(lines[i]) {
      RecordOfDomain(lines[i]);
    }
  }

  /** The domains of kept lines that read back are themselves kept lines. */
  lemma ShownLinesAreKept(lines: seq<string>)
    requires forall i | 0 <= i < |lines| :: ReadsBack(lines[i])
    ensures forall i | 0 <= i < |lines| ::
              Domains(lines)[i] != [] && IsTrimmed(Domains(lines)[i])
              && !IsSkipped(Domains(lines)[i]) && '\n' !in Domains(lines)[i]
  {
    forall i | 0 <= i < |lines| ensures '\n' !in Domains(lines)[i] {
      DomainLacks(lines[i], '\n');
    }
  }

  /** Once the domains are saved and reloaded, saving again writes the same
      file: the view reaches a fixed point after one save. */
  lemma SaveIsStableAfterReload(text: string)
    requires forall i | 0 <= i < |KeptLines(text)| :: ReadsBack(KeptLines(text)[i])
    ensures SaveContent(Join(SiteDomains(SaveContent(text)), '\n')) == SaveContent(text)
  {
    var kept := KeptLines(text);
    SaveThenLoad(text);
    var shown := Domains(kept);
    if kept == [] {
      KeptLinesOfEmpty();
    } else {
      ShownLinesAreKept(kept);
      KeptLinesOfJoin(shown);
      RecordsOfDomains(kept);
    }
  }

  /** Trimmed lines that are not skipped are kept as they are. */
  lemma {:induction false} KeptOfKept(lines: seq<string>)
    requires forall i | 0 <= i < |lines| :: !IsSkipped(lines[i]) && IsTrimmed(lines[i])
    ensures Kept(lines) == lines
    decreases |lines|
  {
    if lines != [] {
      TrimFixedPoint(lines[0]);
      assert Trim(lines[0]) == lines[0];
      KeptOfKept(lines[1..]);
      assert Kept(lines) == [lines[0]] + lines[1..];
    }
  }
}
