/**
 The application's pure helpers: the file name of a saved estimate, the
 "name/position" field split, the next-version label and the one-line
 summary of a history entry.

 The estimate date reaches `generate_filename` already formatted as
 `(YYYY-MM-DD)`; date parsing and `today()` are not part of this model.
 */
module App {
  import opened Wrappers
  import opened Text
  import opened Estimates
  import opened Database
  import opened SaveProperties
  import opened History
  import opened Versions

  // ---------------------------------------------------------------------------
  // generate_filename

  /** Keeps letters, digits and whitespace, then strips. */
  function CleanName(s: string): (r: string)
    ensures IsTrimmed(r)
    ensures forall c | c in r :: c in s && (IsAlnum(c) || IsSpace(c))
  {
    Strip(KeepAlnumOrSpace(s))
  }

  /** Python's `s or default` on a string. */
  function OrDefault(s: string, default: string): string {
    if s == [] then default else s
  }

  /** Python's `s[:n]`. */
  function Prefix(s: string, n: nat): (r: string)
    ensures |r| == if |s| < n then |s| else n
    ensures r == s[..|r|]
  {
    if |s| <= n then s else s[..n]
  }

  /** The customer company part: cleaned, or `NoCompany` when nothing is left. */
  function CompanyPart(company: string): string {
    OrDefault(CleanName(company), "NoCompany")
  }

  /** The project part: cleaned, `NoProject` when nothing is left, then cut
      to its first four characters. */
  function ProjectPart(project: string): string {
    Prefix(OrDefault(CleanName(project), "NoProject"), 4)
  }

  /** `generate_filename`: date part, company, `_`, project, `_`, version. */
  function GenerateFilename(date: string, company: string, project: string, version: string): string {
    date + CompanyPart(company) + "_" + ProjectPart(project) + "_" + version
  }

  /** The company part is never empty, has no `_` and is stripped. It is the
      default exactly when the name has no letter or digit; otherwise it is
      the cleaned name, made of the input's letters, digits and whitespace. */
  lemma CompanyPartShape(company: string)
    ensures var r := CompanyPart(company);
      && r != [] && '_' !in r && IsTrimmed(r)
      && ((forall k | 0 <= k < |company| :: !IsAlnum(company[k])) ==> r == "NoCompany")
      && ((exists k | 0 <= k < |company| :: IsAlnum(company[k])) ==> r == CleanName(company))
      && (r != "NoCompany" ==> forall c | c in r :: c in company && (IsAlnum(c) || IsSpace(c)))
  {
    var c := CleanName(company);
    DefaultsHaveNoUnderscore();
    CleanHasNoUnderscore(c);
    if c != [] {
      CleanHasAlnum(company, c);
    }
    if exists k | 0 <= k < |company| :: IsAlnum(company[k]) {
      var k :| 0 <= k < |company| && IsAlnum(company[k]);
      CleanKeepsAlnum(company, k);
    }
  }

  /** A letter or digit in the name survives cleaning, so the cleaned name
      is not empty. */
  lemma CleanKeepsAlnum(s: string, k: nat)
    requires k < |s| && IsAlnum(s[k])
    ensures CleanName(s) != []
  {
    var kept := KeepAlnumOrSpace(s);
    assert s[k] in s;
    assert s[k] in kept;
    var m :| 0 <= m < |kept| && kept[m] == s[k];
    assert !IsSpace(kept[m]);
  }

  /** The project part has one to four characters, no `_`, and is the start
      of the cleaned name, or `NoPr` when nothing is left. */
  lemma ProjectPartShape(project: string)
    ensures var r := ProjectPart(project);
      var p := CleanName(project);
      && 1 <= |r| <= 4 && '_' !in r
      && (p == [] ==> r == "NoPr")
      && (p != [] ==> r == p[..|r|] && |r| == if |p| < 4 then |p| else 4)
  {
    var p := CleanName(project);
    DefaultsHaveNoUnderscore();
    CleanHasNoUnderscore(p);
    PrefixAvoids(OrDefault(p, "NoProject"), 4, '_');
  }

  lemma DefaultsHaveNoUnderscore()
    ensures '_' !in "NoCompany" && '_' !in "NoProject" && "NoProject"[..4] == "NoPr"
    ensures IsTrimmed("NoCompany")
  {
  }

  lemma CleanHasNoUnderscore(s: string)
    requires forall c | c in s :: IsAlnum(c) || IsSpace(c)
    ensures '_' !in s
  {
    assert !IsAlnum('_') && !IsSpace('_');
  }

  /** A non-empty cleaned name starts with a letter or digit of the input. */
  lemma CleanHasAlnum(s: string, c: string)
    requires c != [] && IsTrimmed(c)
    requires forall x | x in c :: x in s && (IsAlnum(x) || IsSpace(x))
    ensures exists k | 0 <= k < |s| :: IsAlnum(s[k])
  {
    assert c[0] in c;
    var k :| 0 <= k < |s| && s[k] == c[0];
    assert IsAlnum(s[k]);
  }

  lemma PrefixAvoids(s: string, n: nat, c: char)
    requires c !in s
    ensures c !in Prefix(s, n)
  {
    var r := Prefix(s, n);
    assert forall k | 0 <= k < |r| :: r[k] == s[k];
  }

  /** Cleaning is idempotent on the company part. */
  lemma CompanyPartIdempotent(company: string)
    ensures CompanyPart(CompanyPart(company)) == CompanyPart(company)
  {
    var r := CompanyPart(company);
    CompanyPartShape(company);
    CleanIsFixed(r);
  }

  /** Text made of letters, digits and inner whitespace, stripped, is left
      as it is by cleaning. */
  lemma CleanIsFixed(r: string)
    requires r != [] && IsTrimmed(r)
    requires forall c | c in r :: IsAlnum(c) || IsSpace(c)
    ensures CleanName(r) == r
  {
    assert forall k | 0 <= k < |r| :: r[k] in r;
    KeepAlnumOrSpaceOfClean(r);
  }

  /** Splits a file name (after the date part) at the first two `_`. */
  function SplitFilename(f: string): Option<(string, string, string)> {
    if '_' !in f then None
    else
      var i := IndexOf(f, '_');
      var rest := f[i + 1..];
      if '_' !in rest then None
      else
        var j := IndexOf(rest, '_');
        Some((f[..i], rest[..j], rest[j + 1..]))
  }

  /** The file name determines its parts: the company part, the project part
      and the version text can be read back, whatever the version text holds. */
  lemma FilenameReadsBack(date: string, company: string, project: string, version: string)
    ensures var f := GenerateFilename(date, company, project, version);
      && f[..|date|] == date
      && SplitFilename(f[|date|..]) == Some((CompanyPart(company), ProjectPart(project), version))
  {
    CompanyPartShape(company);
    ProjectPartShape(project);
    PartsReadBack(date, CompanyPart(company), ProjectPart(project), version);
  }

  lemma PartsReadBack(date: string, c: string, p: string, v: string)
    requires '_' !in c && '_' !in p
    ensures var f := date + c + "_" + p + "_" + v;
      && f[..|date|] == date
      && SplitFilename(f[|date|..]) == Some((c, p, v))
  {
    var f := date + c + "_" + p + "_" + v;
    assert f[|date|..] == c + "_" + (p + "_" + v);
    UnderscoreAt(c, p + "_" + v);
    UnderscoreAt(p, v);
  }

  lemma UnderscoreAt(a: string, b: string)
    requires '_' !in a
    ensures '_' in a + "_" + b && IndexOf(a + "_" + b, '_') == |a|
    ensures (a + "_" + b)[..|a|] == a && (a + "_" + b)[|a| + 1..] == b
  {
    var s := a + "_" + b;
    assert s[|a|] == '_';
  }

  // ---------------------------------------------------------------------------
  // the name/position field

  datatype Person = Person(name: string, position: string)

  /** The two-target unpacking of `split('/')` raised: the field had this
      many parts. */
  datatype SplitError = UnpackError(parts: nat)

  /** The split in `render_customer_info` / `render_company_info`. With a
      `/`: exactly two parts, each stripped, or the unpacking raises.
      Otherwise the last whitespace word is the position and the other words,
      joined by single spaces, the name; a single word (or none) leaves the
      field as typed and the position empty. */
  function SplitNamePosition(s: string): (r: Result<Person, SplitError>)
    ensures r.Failure? <==> Count(s, '/') >= 2
  {
    if '/' in s then
      var parts := SplitOn(s, '/');
      CountPresent(s, '/');
      if |parts| != 2 then Failure(UnpackError(|parts|))
      else Success(Person(Strip(parts[0]), Strip(parts[1])))
    else
      CountAbsent(s, '/');
      var ws := Words(Strip(s));
      if |ws| > 1 then Success(Person(Join(ws[..|ws| - 1], " "), ws[|ws| - 1]))
      else Success(Person(s, ""))
  }

  lemma {:induction false} CountPresent(s: string, c: char)
    requires c in s
    ensures Count(s, c) >= 1
    decreases |s|
  {
    if s[0] != c {
      CountPresent(s[1..], c);
    }
  }

  /** With one `/`, the name and position are the stripped texts on either
      side of it. */
  lemma SplitAtSlash(a: string, b: string)
    requires '/' !in a && '/' !in b
    ensures SplitNamePosition(a + "/" + b) == Success(Person(Strip(a), Strip(b)))
  {
    var s := a + "/" + b;
    var parts := SplitOn(s, '/');
    CountConcat(a + "/", b, '/');
    CountConcat(a, "/", '/');
    CountAbsent(a, '/');
    CountAbsent(b, '/');
    assert |parts| == 2;
    assert parts[0] + "/" + parts[1] == s;
    UniqueSplit(parts[0], parts[1], a, b);
  }

  lemma UniqueSplit(p0: string, p1: string, a: string, b: string)
    requires '/' !in p0 && '/' !in a
    requires p0 + "/" + p1 == a + "/" + b
    ensures p0 == a && p1 == b
  {
    var s := a + "/" + b;
    assert s[|a|] == '/' && s[|p0|] == '/';
    assert forall k | 0 <= k < |a| :: s[k] == a[k] && s[k] != '/';
    assert forall k | 0 <= k < |p0| :: s[k] == p0[k] && s[k] != '/';
    assert |p0| == |a|;
    assert s[..|a|] == a && s[..|p0|] == p0;
    assert s[|a| + 1..] == b && s[|p0| + 1..] == p1;
  }

  /** The text the field is pre-filled with: name and position joined by a
      space, stripped. */
  function Prefill(p: Person): string {
    Strip(p.name + " " + p.position)
  }

  /** Splitting the pre-filled text gives back the person when the name is a
      non-empty run of words joined by single spaces and the position is one
      word, with no `/` anywhere. */
  lemma PrefillRoundTrip(ws: seq<string>, position: string)
    requires ws != [] && forall k | 0 <= k < |ws| :: IsWord(ws[k]) && '/' !in ws[k]
    requires IsWord(position) && '/' !in position
    ensures SplitNamePosition(Prefill(Person(Join(ws, " "), position))) == Success(Person(Join(ws, " "), position))
  {
    var all := ws + [position];
    AppendWord(ws, position);
    JoinAppend(ws, position, " ");
    WordLine(all);
    SplitWithoutSlash(Join(all, " "));
  }

  /** Appending one more word keeps a run of slash-free words. */
  lemma AppendWord(ws: seq<string>, w: string)
    requires forall k | 0 <= k < |ws| :: IsWord(ws[k]) && '/' !in ws[k]
    requires IsWord(w) && '/' !in w
    ensures var all := ws + [w];
      && (forall k | 0 <= k < |all| :: IsWord(all[k]) && '/' !in all[k])
      && all[..|all| - 1] == ws && all[|all| - 1] == w
  {
  }

  /** A single-space join of slash-free words is stripped, has no `/`, and
      splits on whitespace back into the words. */
  lemma WordLine(ws: seq<string>)
    requires ws != [] && forall k | 0 <= k < |ws| :: IsWord(ws[k]) && '/' !in ws[k]
    ensures var s := Join(ws, " ");
      && s != [] && IsTrimmed(s) && '/' !in s && Words(s) == ws
  {
    assert forall k | 0 <= k < |ws| :: IsWord(ws[k]);
    JoinOfWordsTrimmed(ws);
    WordsOfJoin(ws);
    JoinAvoids(ws, " ", '/');
  }

  lemma {:induction false} JoinAvoids(ws: seq<string>, sep: string, c: char)
    requires c !in sep && forall k | 0 <= k < |ws| :: c !in ws[k]
    ensures c !in Join(ws, sep)
    decreases |ws|
  {
    if |ws| > 1 {
      JoinAvoids(ws[1..], sep, c);
    }
  }

  /** How a slash-free field splits, whatever whitespace surrounds it: with
      two or more words, the last one is the position and the others, joined
      by single spaces, the name; otherwise the field is kept as typed,
      surrounding whitespace included, with an empty position. */
  lemma SplitWithoutSlash(s: string)
    requires '/' !in s
    ensures var ws := Words(s);
      && (|ws| > 1 ==> SplitNamePosition(s) == Success(Person(Join(ws[..|ws| - 1], " "), ws[|ws| - 1])))
      && (|ws| <= 1 ==> SplitNamePosition(s) == Success(Person(s, "")))
  {
    WordsOfStrip(s);
  }

  /** A one-word name with an empty position survives the round trip. */
  lemma PrefillRoundTripNoPosition(name: string)
    requires IsWord(name) && '/' !in name
    ensures SplitNamePosition(Prefill(Person(name, ""))) == Success(Person(name, ""))
  {
    OneWordLine(name);
    assert name + " " + "" == name + " ";
    TrailingSpaceDropped(name);
    SplitWithoutSlash(name);
  }

  lemma OneWordLine(w: string)
    requires IsWord(w) && '/' !in w
    ensures Join([w], " ") == w && IsTrimmed(w) && w != [] && Words(w) == [w]
  {
    WordLine([w]);
  }

  /** Stripping drops one space appended to stripped non-empty text. */
  lemma TrailingSpaceDropped(s: string)
    requires s != [] && IsTrimmed(s)
    ensures Strip(s + " ") == s
  {
    var t := TrimStart(s + " ");
    assert t == s + " ";
    assert t[..|t| - 1] == s;
    assert TrimEnd(t) == s;
  }

  /** With an empty position and a name of two or more words, the round trip
      loses the split: the last word of the name comes back as the position. */
  lemma PrefillMovesLastWord(ws: seq<string>)
    requires |ws| >= 2 && forall k | 0 <= k < |ws| :: IsWord(ws[k]) && '/' !in ws[k]
    ensures SplitNamePosition(Prefill(Person(Join(ws, " "), ""))) ==
      Success(Person(Join(ws[..|ws| - 1], " "), ws[|ws| - 1]))
  {
    var name := Join(ws, " ");
    WordLine(ws);
    assert name + " " + "" == name + " ";
    TrailingSpaceDropped(name);
    SplitWithoutSlash(name);
  }

  // ---------------------------------------------------------------------------
  // the next-version label

  /** The label `render_results` proposes for the next save of the current
      estimate. */
  function NextVersionLabel(st: Store, currentId: Option<nat>, sessionFinal: bool): string {
    if Truthy(currentId) then
      if !sessionFinal then "v" + NatToString(GetEstimateVersion(st, currentId.value) + 1) else "final"
    else "v1"
  }

  /** The proposed label is `final` exactly when there is a current estimate
      and the session is final; otherwise it is `v` followed by a decimal
      number that reads back as the current version plus one, or 1 with no
      current estimate. */
  lemma NextLabelReadsBack(st: Store, currentId: Option<nat>, sessionFinal: bool)
    ensures var r := NextVersionLabel(st, currentId, sessionFinal);
      && (r == "final" <==> Truthy(currentId) && sessionFinal)
      && (r != "final" ==>
            && r[0] == 'v'
            && ParseInt(r[1..]) == Some(if Truthy(currentId) then GetEstimateVersion(st, currentId.value) + 1 else 1))
  {
    var n: nat := if Truthy(currentId) then GetEstimateVersion(st, currentId.value) + 1 else 1;
    if !(Truthy(currentId) && sessionFinal) {
      VersionLabelReadsBack(n);
    }
  }

  lemma VersionLabelReadsBack(n: nat)
    ensures var r := "v" + NatToString(n);
      r != "final" && r[0] == 'v' && r[1..] == NatToString(n) && ParseInt(r[1..]) == Some(n)
  {
    var r := "v" + NatToString(n);
    assert r[0] != "final"[0];
    assert r[1..] == NatToString(n);
    ParseIntOfIntToString(n);
  }

  /** The version text that goes into the file name: `final` when the final
      box is ticked, otherwise what is in the text box (the proposed label
      unless the user typed something else). */
  function ChosenVersion(proposed: string, typed: Option<string>, finalTicked: bool): (v: string)
    ensures finalTicked ==> v == "final"
    ensures !finalTicked && typed.None? ==> v == proposed
    ensures !finalTicked && typed.Some? ==> v == typed.value
  {
    if finalTicked then "final" else if typed.Some? then typed.value else proposed
  }

  /** Saving a new revision of the current estimate (not final, clock later
      than every record): the proposed label names the version the new record
      actually gets exactly when the current record is the newest of its
      lineage. */
  lemma NextLabelNamesSavedVersion(st: Store, cur: nat, req: SaveRequest, now: nat)
    requires WellFormed(st) && cur in st.records && AllBefore(st, now)
    requires req.parentId == Some(cur) && !req.isFinal
    ensures var out := SaveEstimate(st, req, now, None);
      && out.result.Success?
      && (NextVersionLabel(st, Some(cur), false) == "v" + NatToString(GetEstimateVersion(out.store, out.result.value))
          <==> Newest(st, cur))
  {
    var root := RevisionBranch(st, cur, req);
    SaveAddsRevision(st, req, now);
    SaveRevisionVersions(st, req, now);
    LabelAgainstVersion(st, cur, root, GetEstimateVersion(SaveEstimate(st, req, now, None).store, st.lastId + 1));
  }

  /** A non-final save under an existing record adds a revision to that
      record's lineage. */
  lemma RevisionBranch(st: Store, cur: nat, req: SaveRequest) returns (root: nat)
    requires WellFormed(st) && cur in st.records
    requires req.parentId == Some(cur) && !req.isFinal
    ensures cur != 0 && st.records[cur].rootId == Some(root)
    ensures !StartsLineage(st, req) && !FinalizesInPlace(st, req)
    ensures st.records[req.parentId.value].rootId == Some(root)
  {
    assert RecordLinked(st, cur);
    root := st.records[cur].rootId.value;
  }

  /** The label proposed for `cur` names version `v` (one past the size of
      its lineage) exactly when `cur` is the newest of its lineage. */
  lemma LabelAgainstVersion(st: Store, cur: nat, root: nat, v: nat)
    requires cur != 0 && cur in st.records && st.records[cur].rootId == Some(root)
    requires v == |Lineage(st, root)| + 1
    ensures NextVersionLabel(st, Some(cur), false) == "v" + NatToString(v) <==> Newest(st, cur)
  {
    VersionOfNewest(st, cur);
    LabelsMatchIff(GetEstimateVersion(st, cur) + 1, v);
  }

  lemma LabelsMatchIff(a: nat, b: nat)
    ensures "v" + NatToString(a) == "v" + NatToString(b) <==> a == b
  {
    var x, y := "v" + NatToString(a), "v" + NatToString(b);
    if x == y {
      assert x[1..] == NatToString(a) && y[1..] == NatToString(b);
      NatToStringInjective(a, b);
    }
  }

  // ---------------------------------------------------------------------------
  // format_history_item

  /** One line of the history select box. `createdText` is the stored
      `created_at` text. */
  function FormatHistoryItem(e: Entry, createdText: string): string {
    if e.filename != [] then e.filename + " - " + FormatThousands(e.total) + "원"
    else
      var date := if e.estimateDate != [] then e.estimateDate else Prefix(createdText, 10);
      e.customerName + " - " + e.subject + " (" + date + ") " + e.status
  }

  /** The amount text reads back through the price parser of the catalogue:
      removing the grouping commas and parsing gives the amount. */
  lemma AmountTextReadsBack(n: int)
    ensures ParsePrice(FormatThousands(n)) == Some(n)
  {
    UngroupFormatThousands(n);
    var d := IntToString(n);
    assert IsTrimmed(d);
    ParseIntOfIntToString(n);
  }

  /** With a file name the line is the file name, ` - `, the total, and
      `원`; the total text is `str(total)` with commas inserted, and it reads
      back as the total. Without one it is the customer name, ` - `, the
      subject, ` (`, the date, `) ` and the status, and the date shown is the estimate date or else the first ten characters of the
      creation time (all of it when shorter). */
  lemma HistoryItemShape(e: Entry, createdText: string)
    ensures var line := FormatHistoryItem(e, createdText);
      && (e.filename != [] ==>
            var t := line[|e.filename| + 3..|line| - 1];
            && line[..|e.filename|] == e.filename
            && line[|e.filename|..|e.filename| + 3] == " - "
            && line[|line| - 1] == '원'
            && RemoveChar(t, ',') == IntToString(e.total)
            && ParsePrice(t) == Some(e.total))
      && (e.filename == [] ==>
            var n, m := |e.customerName|, |e.subject|;
            var date := line[n + 3 + m + 2..|line| - 2 - |e.status|];
            && line[..n] == e.customerName
            && line[n..n + 3] == " - "
            && line[n + 3..n + 3 + m] == e.subject
            && line[n + 3 + m..n + 3 + m + 2] == " ("
            && line[|line| - 2 - |e.status|..|line| - |e.status|] == ") "
            && line[|line| - |e.status|..] == e.status
            && (e.estimateDate != [] ==> date == e.estimateDate)
            && (e.estimateDate == [] ==>
                  |date| == (if |createdText| < 10 then |createdText| else 10) && date == createdText[..|date|]))
  {
    if e.filename != [] {
      AmountLine(e.filename, FormatThousands(e.total));
      AmountTextReadsBack(e.total);
      UngroupFormatThousands(e.total);
    } else {
      var date := if e.estimateDate != [] then e.estimateDate else Prefix(createdText, 10);
      StatusLine(e.customerName, e.subject, date, e.status);
    }
  }

  lemma AmountLine(f: string, t: string)
    ensures var line := f + " - " + t + "원";
      && line[..|f|] == f && line[|f|..|f| + 3] == " - "
      && line[|line| - 1] == '원' && line[|f| + 3..|line| - 1] == t
  {
    var line := f + " - " + t + "원";
    assert line == f + (" - " + t + "원");
  }

  lemma StatusLine(name: string, subject: string, date: string, status: string)
    ensures var line := name + " - " + subject + " (" + date + ") " + status;
      && line[..|name|] == name
      && line[|name|..|name| + 3] == " - "
      && line[|name| + 3..|name| + 3 + |subject|] == subject
      && line[|name| + 3 + |subject|..|name| + 3 + |subject| + 2] == " ("
      && line[|name| + 3 + |subject| + 2..|line| - 2 - |status|] == date
      && line[|line| - 2 - |status|..|line| - |status|] == ") "
      && line[|line| - |status|..] == status
  {
    var line := name + " - " + subject + " (" + date + ") " + status;
    var head := name + " - " + subject + " (";
    assert line == head + date + ") " + status;
    assert |head| == |name| + 3 + |subject| + 2;
  }
}
