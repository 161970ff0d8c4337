/**
 The table part of a generated workbook (ECMA-376 Part 1, section 18.5.1.2), character by character, and the
 regular-expression reader that recovers table names and column headers from it.
 */
module TablePart {
  import opened Prelude
  import opened Text

  // ---------------------------------------------------------------- column labels

  predicate Letters(s: string) {
    forall k :: 0 <= k < |s| ==> 'A' <= s[k] <= 'Z'
  }

  function Letter(d: nat): char
    requires d < 26
  {
    ('A' as int + d) as char
  }

  /** Bijective base-26 digits of `n`; the label of column `n`. */
  function Label(n: nat): string {
    if n == 0 then "" else Label((n - 1) / 26) + [Letter((n - 1) % 26)]
  }

  /** The column a label denotes. */
  function ColumnNumber(letters: string): int {
    if letters == [] then 0
    else 26 * ColumnNumber(letters[..|letters| - 1]) + (letters[|letters| - 1] as int - 'A' as int + 1)
  }

  method Column(index: nat) returns (value: string)
    ensures value == Label(index)
  {
    value := "";
    var rest := index;
    while rest != 0
      invariant Label(rest) + value == Label(index)
    {
      var remainder := (rest - 1) % 26;
      assert Label(rest) + value == Label((rest - 1) / 26) + ([Letter(remainder)] + value);
      rest := (rest - 1) / 26;
      value := [Letter(remainder)] + value;
    }
  }

  /** Labels are letters and denote the column they were made for. */
  lemma {:induction false} LabelDenotesColumn(n: nat)
    ensures Letters(Label(n)) && ColumnNumber(Label(n)) == n
  {
    if n > 0 {
      LabelDenotesColumn((n - 1) / 26);
      assert Label(n)[..|Label(n)| - 1] == Label((n - 1) / 26);
    }
  }

  /** Every word of letters is the label of exactly the column it denotes. */
  lemma {:induction false} EveryWordIsALabel(s: string)
    requires Letters(s)
    ensures ColumnNumber(s) >= 0 && Label(ColumnNumber(s)) == s
  {
    if s != [] {
      var front, d := s[..|s| - 1], s[|s| - 1] as int - 'A' as int;
      EveryWordIsALabel(front);
      assert ColumnNumber(s) - 1 == 26 * ColumnNumber(front) + d;
      assert (ColumnNumber(s) - 1) / 26 == ColumnNumber(front) && (ColumnNumber(s) - 1) % 26 == d;
      assert s == front + [s[|s| - 1]];
    }
  }

  // ---------------------------------------------------------------- printer

  function EscapeChar(c: char): string {
    if c == '&' then "&amp;" else if c == '<' then "&lt;" else if c == '>' then "&gt;" else [c]
  }

  /** `xml.sax.saxutils.escape`: quotes pass through. */
  function Escape(s: string): string {
    if s == [] then [] else EscapeChar(s[0]) + Escape(s[1..])
  }

  function Opening(): string {
    "<" + OpeningRest()
  }

  function OpeningRest(): string {
    "?xml version=\"1.0\" " + ("encoding=\"UTF-8\" " + "standalone=\"yes\"?>")
  }

  function TableTag(): string {
    "<" + TableTagRest()
  }

  function TableTagRest(): string {
    "table xmlns=\"http://" + ("schemas.openxmlformats.org" + "/spreadsheetml/2006/main\" ")
  }

  function StyleTag(): string {
    "<" + StyleTagRest()
  }

  function StyleTagRest(): string {
    "tableStyleInfo name=\"" + ("TableStyleMedium2\" " + ("showFirstColumn=\"0\" " + StripeAttributes()))
  }

  function StripeAttributes(): string {
    "showLastColumn=\"0\" " + ("showRowStripes=\"1\" " + "showColumnStripes=\"0\"/>")
  }

  /** The attributes up to and including the display name. */
  function NameAttributes(id: nat, name: string): string {
    "id=\"" + Decimal(id) + "\" name=\"" + name + "\" displayName=\"" + name + "\""
  }

  function RefAttributes(end: string): string {
    " ref=\"A1:" + end + ("1\" headerRowCount=\"1\" " + "totalsRowShown=\"0\">")
  }

  function FilterTag(end: string): string {
    "<autoFilter ref=\"A1:" + end + "1\"/>"
  }

  function ColumnsTag(count: nat): string {
    "<tableColumns count=\"" + Decimal(count) + "\">"
  }

  function ColumnTag(i: nat, header: string): string {
    "<tableColumn id=\"" + Decimal(i) + "\" name=\"" + Escape(header) + "\"/>"
  }

  /** The column elements for `headers`, numbered from `i`. */
  function ColumnTags(i: nat, headers: seq<string>): string
    decreases |headers|
  {
    if headers == [] then [] else ColumnTag(i, headers[0]) + ColumnTags(i + 1, headers[1..])
  }

  function ColumnsEnd(): string { "</tableColumns>" }

  /** Everything before the column elements. */
  function Preamble(id: nat, name: string, count: nat): string {
    TableOpening(id, name) + Ranges(count)
  }

  function TableOpening(id: nat, name: string): string {
    Opening() + (TableTag() + NameAttributes(id, name))
  }

  function Ranges(count: nat): string {
    RefAttributes(Label(count)) + (FilterTag(Label(count)) + ColumnsTag(count))
  }

  function Ending(): string { ColumnsEnd() + (StyleTag() + "</table>") }

  function TableXml(id: nat, name: string, headers: seq<string>): string {
    hide *;
    Preamble(id, name, |headers|) + (ColumnTags(1, headers) + Ending())
  }

  /** The column that a printed range `A1:<label>1` ends in; `at` is where its attribute starts. */
  function RefColumn(s: string, at: nat): int
    requires at + 9 <= |s|
  {
    ColumnNumber(s[at + 9..IndexOf(s, '1', at + 9)])
  }

  lemma IndexOfFirst(a: string, b: string, c: char, from: nat)
    requires from <= |a| && b != [] && b[0] == c && forall n :: from <= n < |a| ==> a[n] != c
    ensures IndexOf(a + b, c, from) == |a|
  {
    assert (a + b)[|a|] == c;
    assert forall n :: from <= n < |a| ==> (a + b)[n] == a[n] != c;
  }

  lemma SixPieces(a: string, b: string, c: string, d: string, e: string, f: string)
    ensures (a + ((b + c + d) + e)) + f == (a + b + c) + (d + e + f)
  {
  }

  /** The printed range of a table ends in the column of its last header. */
  lemma {:induction false} RefDenotesHeaderCount(id: nat, name: string, headers: seq<string>)
    ensures var s, at := TableXml(id, name, headers), |TableOpening(id, name)|;
            at + 9 <= |s| && s[at..at + 9] == " ref=\"A1:" && RefColumn(s, at) == |headers|
  {
    hide ColumnTags, Ending, TableOpening, FilterTag, ColumnsTag, Label, ColumnNumber;
    var end := Label(|headers|);
    LabelDenotesColumn(|headers|);
    var opening, mark := TableOpening(id, name), " ref=\"A1:";
    var back := ("1\" headerRowCount=\"1\" " + "totalsRowShown=\"0\">")
                + (FilterTag(end) + ColumnsTag(|headers|)) + (ColumnTags(1, headers) + Ending());
    var front := opening + mark + end;
    SixPieces(opening, mark, end, "1\" headerRowCount=\"1\" " + "totalsRowShown=\"0\">",
              FilterTag(end) + ColumnsTag(|headers|), ColumnTags(1, headers) + Ending());
    assert TableXml(id, name, headers) == front + back;
    assert back[0] == '1';
    assert forall n :: |opening| + 9 <= n < |front| ==> front[n] == end[n - |opening| - 9];
    IndexOfFirst(front, back, '1', |opening| + 9);
    assert (front + back)[|opening| + 9..|front|] == end;
    assert (front + back)[|opening|..|opening| + 9] == mark;
  }

  // ---------------------------------------------------------------- reader

  /** First position of `c` at or after `from`, or the end. */
  function IndexOf(s: string, c: char, from: nat): (k: nat)
    requires from <= |s|
    ensures from <= k <= |s| && (k < |s| ==> s[k] == c)
    ensures forall n :: from <= n < k ==> s[n] != c
    decreases |s| - from
  {
    if from == |s| || s[from] == c then from else IndexOf(s, c, from + 1)
  }

  const COLUMN_TAG := "<tableColumn"

  /** `name="` stands at `j`. */
  predicate NameOpens(s: string, j: int) {
    && 0 <= j && j + 6 <= |s| && s[j] == 'n' && s[j + 1] == 'a' && s[j + 2] == 'm' && s[j + 3] == 'e'
    && s[j + 4] == '=' && s[j + 5] == '"'
  }

  /** `displayName=` stands at `p`. */
  predicate DisplayNameStands(s: string, p: int) {
    && 0 <= p && p + 12 <= |s| && s[p] == 'd' && s[p + 1] == 'i' && s[p + 2] == 's' && s[p + 3] == 'p'
    && s[p + 4] == 'l' && s[p + 5] == 'a' && s[p + 6] == 'y' && s[p + 7] == 'N' && s[p + 8] == 'a'
    && s[p + 9] == 'm' && s[p + 10] == 'e' && s[p + 11] == '='
  }

  predicate DisplayNameOpens(s: string, p: int) {
    DisplayNameStands(s, p) && p + 12 < |s| && s[p + 12] == '"'
  }

  predicate StartsWith(s: string, word: string) {
    |word| <= |s| && s[..|word|] == word
  }

  /** `\bname="([^"]*)"` matches at `j`; `word` says which characters count as word characters. */
  predicate NameAt(s: string, j: nat, word: char -> bool) {
    0 < j && NameOpens(s, j) && !word(s[j - 1]) && IndexOf(s, '"', j + 6) < |s|
  }

  /** The last match of the name attribute between the tag name and `hi`: what a greedy `[^>]*` backtracks to. */
  function LastName(s: string, hi: nat, word: char -> bool): (j: nat)
    ensures j == 0 || (12 <= j <= hi && NameAt(s, j, word))
    ensures forall n :: (if j == 0 then 12 else j + 1) <= n <= hi ==> !NameAt(s, n, word)
  {
    if hi < 12 then 0
    else if NameAt(s, hi, word) then hi
    else LastName(s, hi - 1, word)
  }

  /** `re.findall(r'<tableColumn[^>]*\bname="([^"]*)"', s)`. */
  function FindHeaders(s: string, word: char -> bool): seq<string>
    decreases |s|
  {
    if s == [] then []
    else if StartsWith(s, COLUMN_TAG) && LastName(s, IndexOf(s, '>', 12), word) > 0 then
      var j := LastName(s, IndexOf(s, '>', 12), word);
      var quote := IndexOf(s, '"', j + 6);
      [s[j + 6..quote]] + FindHeaders(s[quote + 1..], word)
    else FindHeaders(s[1..], word)
  }

  /** `displayName="([^"]+)"` matches at `p`. */
  predicate DisplayNameAt(s: string, p: nat) {
    && DisplayNameOpens(s, p)
    && p + 13 < IndexOf(s, '"', p + 13) < |s|
  }

  /** `\bname="([^"]+)"` matches at `p`. */
  predicate PlainNameAt(s: string, p: nat, word: char -> bool) {
    && NameOpens(s, p) && (p == 0 || !word(s[p - 1]))
    && p + 6 < IndexOf(s, '"', p + 6) < |s|
  }

  function FirstDisplayName(s: string, p: nat): (r: nat)
    requires p <= |s|
    ensures p <= r <= |s| && (r < |s| ==> DisplayNameAt(s, r)) && forall n :: p <= n < r ==> !DisplayNameAt(s, n)
    decreases |s| - p
  {
    if p == |s| || DisplayNameAt(s, p) then p else FirstDisplayName(s, p + 1)
  }

  function FirstPlainName(s: string, p: nat, word: char -> bool): (r: nat)
    requires p <= |s|
    ensures p <= r <= |s| && (r < |s| ==> PlainNameAt(s, r, word))
    ensures forall n :: p <= n < r ==> !PlainNameAt(s, n, word)
    decreases |s| - p
  {
    if p == |s| || PlainNameAt(s, p, word) then p else FirstPlainName(s, p + 1, word)
  }

  /** The table name the reader picks: the display name, or failing that the first plain name. */
  function FindName(s: string, word: char -> bool): Option<string> {
    var p, q := FirstDisplayName(s, 0), FirstPlainName(s, 0, word);
    if p < |s| then Some(s[p + 13..IndexOf(s, '"', p + 13)])
    else if q < |s| then Some(s[q + 6..IndexOf(s, '"', q + 6)])
    else None
  }

  /** `attribute="v"` stands at `p`, with a quote-free `v` that is not empty. */
  predicate Assigns(s: string, p: nat, attribute: string, v: string) {
    var at := p + |attribute| + 2;
    && at + |v| < |s| && s[p..at] == attribute + "=\"" && s[at..at + |v|] == v && s[at + |v|] == '"'
    && v != "" && '"' !in v
  }

  lemma {:induction false} QuoteEnds(s: string, at: nat, v: string)
    requires at + |v| < |s| && s[at..at + |v|] == v && s[at + |v|] == '"' && '"' !in v
    ensures IndexOf(s, '"', at) == at + |v|
  {
    assert forall k :: at <= k < at + |v| ==> s[k] == v[k - at];
  }

  lemma {:induction false} DisplayNameAssigns(s: string, p: nat)
    ensures DisplayNameAt(s, p) ==> Assigns(s, p, "displayName", s[p + 13..IndexOf(s, '"', p + 13)])
    ensures forall v :: Assigns(s, p, "displayName", v) ==>
                          DisplayNameAt(s, p) && v == s[p + 13..IndexOf(s, '"', p + 13)]
  {
    forall v | Assigns(s, p, "displayName", v)
      ensures DisplayNameAt(s, p) && v == s[p + 13..IndexOf(s, '"', p + 13)]
    {
      QuoteEnds(s, p + 13, v);
      assert forall k :: p <= k < p + 13 ==> s[k] == ("displayName" + "=\"")[k - p];
    }
  }

  lemma {:induction false} PlainNameAssigns(s: string, p: nat, word: char -> bool)
    ensures PlainNameAt(s, p, word) ==>
              (0 < p <= |s| ==> !word(s[p - 1])) && Assigns(s, p, "name", s[p + 6..IndexOf(s, '"', p + 6)])
    ensures forall v :: Assigns(s, p, "name", v) && (0 < p <= |s| ==> !word(s[p - 1])) ==>
                          PlainNameAt(s, p, word) && v == s[p + 6..IndexOf(s, '"', p + 6)]
  {
    forall v | Assigns(s, p, "name", v) && (0 < p <= |s| ==> !word(s[p - 1]))
      ensures PlainNameAt(s, p, word) && v == s[p + 6..IndexOf(s, '"', p + 6)]
    {
      QuoteEnds(s, p + 6, v);
      assert forall k :: p <= k < p + 6 ==> s[k] == ("name" + "=\"")[k - p];
    }
  }

  lemma AssignsInside(s: string, p: nat, attribute: string, v: string)
    requires Assigns(s, p, attribute, v)
    ensures p < |s|
  {
  }

  /** The reader takes the first display name. */
  lemma {:induction false} FirstDisplayNameWins(s: string, word: char -> bool, p: nat, v: string)
    requires Assigns(s, p, "displayName", v)
    requires forall q: nat, w :: q < p ==> !Assigns(s, q, "displayName", w)
    ensures FindName(s, word) == Some(v)
  {
    hide DisplayNameAt, PlainNameAt, Assigns;
    AssignsInside(s, p, "displayName", v);
    DisplayNameAssigns(s, p);
    DisplayNameAssigns(s, FirstDisplayName(s, 0));
  }

  /** Without any display name it takes the first `name` that does not continue a word. */
  lemma {:induction false} PlainNameIsTheFallback(s: string, word: char -> bool, p: nat, v: string)
    requires forall q: nat, w :: !Assigns(s, q, "displayName", w)
    requires Assigns(s, p, "name", v) && (0 < p <= |s| ==> !word(s[p - 1]))
    requires forall q: nat, w :: q < p && Assigns(s, q, "name", w) ==> 0 < q <= |s| && word(s[q - 1])
    ensures FindName(s, word) == Some(v)
  {
    hide DisplayNameAt, PlainNameAt, Assigns;
    AssignsInside(s, p, "name", v);
    DisplayNameAssigns(s, FirstDisplayName(s, 0));
    PlainNameAssigns(s, p, word);
    PlainNameAssigns(s, FirstPlainName(s, 0, word), word);
  }

  /** A text with neither has no table name. */
  lemma {:induction false} NamelessExactly(s: string, word: char -> bool)
    ensures FindName(s, word) == None <==>
            && (forall q: nat, w :: !Assigns(s, q, "displayName", w))
            && (forall q: nat, w :: Assigns(s, q, "name", w) ==> 0 < q <= |s| && word(s[q - 1]))
  {
    hide DisplayNameAt, PlainNameAt, Assigns;
    forall q: nat, w | Assigns(s, q, "displayName", w) ensures q < |s| && DisplayNameAt(s, q) {
      AssignsInside(s, q, "displayName", w);
      DisplayNameAssigns(s, q);
    }
    forall q: nat, w | Assigns(s, q, "name", w) && !(0 < q <= |s| && word(s[q - 1]))
      ensures q < |s| && PlainNameAt(s, q, word)
    {
      AssignsInside(s, q, "name", w);
      PlainNameAssigns(s, q, word);
    }
    DisplayNameAssigns(s, FirstDisplayName(s, 0));
    PlainNameAssigns(s, FirstPlainName(s, 0, word), word);
  }

  // ---------------------------------------------------------------- scanning over markup that holds no column

  lemma NotAColumn(s: string)
    requires s != [] && s[0] != '<'
    ensures !StartsWith(s, COLUMN_TAG)
  {
    assert |s| >= 12 ==> s[..12][0] == s[0];
  }

  lemma {:induction false} SkipPlain(a: string, rest: string, word: char -> bool)
    requires '<' !in a
    ensures FindHeaders(a + rest, word) == FindHeaders(rest, word)
  {
    if a == [] {
      assert a + rest == rest;
    } else {
      assert (a + rest)[0] == a[0] && (a + rest)[1..] == a[1..] + rest;
      NotAColumn(a + rest);
      SkipPlain(a[1..], rest, word);
    }
  }

  /** A tag that differs from a column tag in one of its first characters. */
  lemma SkipTag(tag: string, rest: string, k: nat, word: char -> bool)
    requires k < 12 && k < |tag| && tag[k] != COLUMN_TAG[k] && '<' !in tag[1..]
    ensures FindHeaders(tag + rest, word) == FindHeaders(rest, word)
  {
    var s := tag + rest;
    assert |s| >= 12 ==> s[..12][k] == tag[k];
    assert s[1..] == tag[1..] + rest;
    SkipPlain(tag[1..], rest, word);
  }

  /** The enclosing `<tableColumns ...>` starts like a column but has no name attribute before its `>`. */
  lemma SkipColumnsTag(count: nat, rest: string, word: char -> bool)
    ensures FindHeaders(ColumnsTag(count) + rest, word) == FindHeaders(rest, word)
  {
    var tag, s := ColumnsTag(count), ColumnsTag(count) + rest;
    ColumnsTagShape(count);
    var close := |tag| - 1;
    assert forall n :: 12 <= n < close ==> s[n] == tag[n] && tag[n] != '>';
    assert s[close] == '>';
    assert IndexOf(s, '>', 12) == close;
    forall j | 12 <= j <= close ensures !NameAt(s, j, word) {
      if s[j] == 'n' {
        assert s[j + 1] == tag[j + 1];
      }
    }
    assert s[1..] == tag[1..] + rest;
    SkipPlain(tag[1..], rest, word);
  }

  lemma ColumnsTagShape(count: nat)
    ensures var tag := ColumnsTag(count);
            && |tag| > 13 && tag[|tag| - 1] == '>' && '<' !in tag[1..]
            && (forall n :: 12 <= n < |tag| - 1 ==> tag[n] != '>' && (tag[n] == 'n' ==> tag[n + 1] != 'a'))
  {
    var head, digits := "<tableColumns count=\"", Decimal(count);
    var tag := ColumnsTag(count);
    assert tag == head + digits + "\">";
    assert forall n :: 0 <= n < |digits| ==> digits[n] in Digits(count);
    assert forall n :: |head| <= n < |head| + |digits| ==> tag[n] == digits[n - |head|];
    assert forall n :: 0 <= n < |head| ==> tag[n] == head[n];
  }

  // ---------------------------------------------------------------- reading one column element

  /** The header ends in a free-standing `name=`, so that its closing quote opens a second name attribute. */
  predicate EndsInName(s: string, word: char -> bool) {
    var k := |s| - 5;
    && k >= 0 && s[k] == 'n' && s[k + 1] == 'a' && s[k + 2] == 'm' && s[k + 3] == 'e' && s[k + 4] == '='
    && (k == 0 || !word(s[k - 1]))
  }

  /** What the reader needs to know of the text before the name attribute of a column. */
  predicate ColumnHead(head: string) {
    && |head| > 12 && head[..12] == COLUMN_TAG && head[|head| - 1] == ' '
    && '>' !in head && 'n' !in head[12..] && '<' !in head[1..]
  }

  function Element(head: string, value: string, rest: string): string {
    head + ("name=\"" + (value + ("\"/>" + rest)))
  }

  lemma ElementHead(head: string, value: string, rest: string)
    requires ColumnHead(head)
    ensures var s, at := Element(head, value, rest), |head|;
            |s| >= at && s[..12] == COLUMN_TAG && s[at - 1] == ' '
            && (forall n :: 12 <= n < at ==> s[n] != 'n' && s[n] != '>')
  {
    var s, at := Element(head, value, rest), |head|;
    assert forall n :: 0 <= n < at ==> s[n] == head[n] && head[n] in head;
    assert forall n :: 12 <= n < at ==> head[n] == head[12..][n - 12] && head[12..][n - 12] in head[12..];
    assert s[..12] == head[..12];
  }

  lemma Glue(a: string, b: string, c: string, d: string)
    ensures var s := a + (b + (c + d));
            && |s| == |a| + |b| + |c| + |d|
            && (forall n :: 0 <= n < |b| ==> s[|a| + n] == b[n])
            && (forall n :: |a| + |b| <= n < |a| + |b| + |c| ==> s[n] == c[n - |a| - |b|])
            && s[|a| + |b|..|a| + |b| + |c|] == c && s[|a| + |b| + |c|..] == d
  {
  }

  lemma ElementTail(head: string, value: string, rest: string)
    requires '"' !in value && '>' !in value
    ensures var s, at, quote := Element(head, value, rest), |head|, |head| + 6 + |value|;
            && |s| == quote + 3 + |rest| && NameOpens(s, at)
            && s[quote] == '"' && s[quote + 1] == '/' && s[quote + 2] == '>'
            && (forall n :: at + 6 <= n < quote ==> s[n] == value[n - at - 6] && s[n] != '"' && s[n] != '>')
            && s[at + 6..quote] == value && s[quote + 1..] == "/>" + rest
  {
    var s, at, quote := Element(head, value, rest), |head|, |head| + 6 + |value|;
    var name, tail := "name=\"", "\"/>" + rest;
    Glue(head, name, value, tail);
    assert s[at] == name[0] && s[at + 1] == name[1] && s[at + 2] == name[2] && s[at + 3] == name[3]
           && s[at + 4] == name[4] && s[at + 5] == name[5];
    assert s[quote..] == tail && tail[1..] == "/>" + rest;
    assert s[quote] == s[quote..][0] && s[quote + 1] == s[quote..][1] && s[quote + 2] == s[quote..][2];
    forall n | at + 6 <= n < quote ensures s[n] == value[n - at - 6] && s[n] != '"' && s[n] != '>' {
      assert value[n - at - 6] in value;
    }
    assert s[quote + 1..] == s[quote..][1..];
  }

  /** Where things are in a column element. */
  lemma {:induction false} ElementShape(head: string, value: string, rest: string)
    requires ColumnHead(head) && '"' !in value && '>' !in value
    ensures var s, at, quote := Element(head, value, rest), |head|, |head| + 6 + |value|;
            && |s| == quote + 3 + |rest| && s[..12] == COLUMN_TAG && NameOpens(s, at)
            && s[quote] == '"' && s[quote + 1] == '/' && s[quote + 2] == '>'
            && (forall n :: at + 6 <= n < quote ==> s[n] == value[n - at - 6] && s[n] != '"' && s[n] != '>')
            && (forall n :: 12 <= n < at ==> s[n] != 'n' && s[n] != '>')
            && s[at - 1] == ' ' && s[at + 6..quote] == value && s[quote + 1..] == "/>" + rest
  {
    hide Element;
    ElementHead(head, value, rest);
    ElementTail(head, value, rest);
  }

  lemma {:induction false} ElementEnds(head: string, value: string, rest: string)
    requires ColumnHead(head) && '"' !in value && '>' !in value
    ensures var s, at, quote := Element(head, value, rest), |head|, |head| + 6 + |value|;
            |s| >= quote + 3 && IndexOf(s, '>', 12) == quote + 2 && IndexOf(s, '"', at + 6) == quote
  {
    hide Element;
    ElementShape(head, value, rest);
  }

  /** Any match of the name attribute after the real one closes at the same quote, so the value ends in `name=`. */
  lemma {:induction false} LaterNameMeansEnd(head: string, value: string, rest: string, n: nat, word: char -> bool)
    requires ColumnHead(head) && '"' !in value && '>' !in value
    requires |head| < n <= |head| + 8 + |value| && NameAt(Element(head, value, rest), n, word)
    ensures n == |head| + 1 + |value| && EndsInName(value, word)
  {
    hide Element;
    var s, at, quote := Element(head, value, rest), |head|, |head| + 6 + |value|;
    ElementShape(head, value, rest);
    assert n > at + 5;
    assert n + 5 == quote;
    var k := |value| - 5;
    assert forall m :: n <= m < quote ==> s[m] == value[m - at - 6];
    assert k > 0 ==> s[n - 1] == value[k - 1];
  }

  /** A value that does not end in `name=` is read back as it was printed. */
  lemma {:induction false} ReadElement(head: string, value: string, rest: string, word: char -> bool)
    requires ColumnHead(head) && '"' !in value && '>' !in value
    requires !word(' ') && !EndsInName(value, word)
    ensures FindHeaders(Element(head, value, rest), word) == [value] + FindHeaders(rest, word)
  {
    hide NameAt, Element, EndsInName, FindHeaders;
    var s, at, quote := Element(head, value, rest), |head|, |head| + 6 + |value|;
    ElementShape(head, value, rest);
    ElementEnds(head, value, rest);
    assert NameAt(s, at, word) by { NameHere(s, at, word); }
    forall n | at < n <= quote + 2 ensures !NameAt(s, n, word) {
      if NameAt(s, n, word) {
        LaterNameMeansEnd(head, value, rest, n, word);
      }
    }
    assert LastName(s, quote + 2, word) == at;
    FindAtHead(s, at, quote, word);
    SkipPlain("/>", rest, word);
  }

  /** One step of the reader at a column tag. */
  lemma FindAtHead(s: string, j: nat, quote: nat, word: char -> bool)
    requires |s| >= 12 && s[..12] == COLUMN_TAG && j > 0 && LastName(s, IndexOf(s, '>', 12), word) == j
    requires j + 6 <= |s| && quote == IndexOf(s, '"', j + 6) < |s|
    ensures FindHeaders(s, word) == [s[j + 6..quote]] + FindHeaders(s[quote + 1..], word)
  {
  }

  lemma NameHere(s: string, at: nat, word: char -> bool)
    requires 0 < at && NameOpens(s, at) && !word(s[at - 1]) && IndexOf(s, '"', at + 6) < |s|
    ensures NameAt(s, at, word)
  {
  }

  /** A value that does end in `name=` swallows the markup behind it up to the next quote. */
  lemma {:induction false} MisreadElement(head: string, value: string, rest: string, word: char -> bool)
    requires ColumnHead(head) && '"' !in value && '>' !in value
    requires !word('"') && EndsInName(value, word) && '"' in rest
    ensures FindHeaders(Element(head, value, rest), word) != []
        && '>' in FindHeaders(Element(head, value, rest), word)[0]
  {
    hide NameAt, Element, EndsInName, FindHeaders;
    var s, at, quote := Element(head, value, rest), |head|, |head| + 6 + |value|;
    ElementShape(head, value, rest);
    ElementEnds(head, value, rest);
    var j := quote - 5;
    NextQuoteExists(s, rest, quote);
    assert NameAt(s, j, word) by { NameAtEnd(head, value, rest, word); }
    forall n | j < n <= quote + 2 ensures !NameAt(s, n, word) {
      if NameAt(s, n, word) {
        LaterNameMeansEnd(head, value, rest, n, word);
      }
    }
    assert LastName(s, quote + 2, word) == j;
    var next := IndexOf(s, '"', quote + 1);
    FindAtHead(s, j, next, word);
    assert s[quote + 1..next][1] == s[quote + 2] == '>';
  }

  lemma NextQuoteExists(s: string, rest: string, quote: nat)
    requires quote + 3 <= |s| && s[quote + 1..] == "/>" + rest && s[quote + 1] == '/' && s[quote + 2] == '>'
    requires '"' in rest
    ensures quote + 3 <= IndexOf(s, '"', quote + 1) < |s|
  {
    var k :| 0 <= k < |rest| && rest[k] == '"';
    assert s[quote + 3 + k] == s[quote + 1..][k + 2] == rest[k];
  }

  lemma {:induction false} NameAtEnd(head: string, value: string, rest: string, word: char -> bool)
    requires ColumnHead(head) && '"' !in value && '>' !in value
    requires !word('"') && EndsInName(value, word)
    requires IndexOf(Element(head, value, rest), '"', |head| + 7 + |value|) < |Element(head, value, rest)|
    ensures NameAt(Element(head, value, rest), |head| + 1 + |value|, word)
  {
    hide Element;
    var s, at, quote := Element(head, value, rest), |head|, |head| + 6 + |value|;
    ElementShape(head, value, rest);
    var j, k := quote - 5, |value| - 5;
    assert forall m :: j <= m < quote && k >= 0 && m >= at + 6 ==> s[m] == value[m - at - 6];
    assert k > 0 ==> s[j - 1] == value[k - 1];
  }

  // ---------------------------------------------------------------- reading all columns

  function EscapeAll(headers: seq<string>): (r: seq<string>)
    ensures |r| == |headers|
  {
    if headers == [] then [] else [Escape(headers[0])] + EscapeAll(headers[1..])
  }

  /** Nothing in it needs escaping. */
  predicate Unescaped(s: string) {
    '&' !in s && '<' !in s && '>' !in s
  }

  lemma {:induction false} EscapeMeaning(s: string)
    ensures '>' !in Escape(s) && '<' !in Escape(s)
    ensures '"' in Escape(s) <==> '"' in s
    ensures |Escape(s)| >= |s| && (Escape(s) == s <==> Unescaped(s)) && (|Escape(s)| == |s| ==> Unescaped(s))
  {
    if s != [] {
      EscapeMeaning(s[1..]);
      assert s == [s[0]] + s[1..];
      assert Escape(s) == EscapeChar(s[0]) + Escape(s[1..]);
    }
  }

  /** What an XML reader makes of the three entities. */
  function Unescape(s: string): string {
    if s == "" then ""
    else if StartsWith(s, "&amp;") then "&" + Unescape(s[5..])
    else if StartsWith(s, "&lt;") then "<" + Unescape(s[4..])
    else if StartsWith(s, "&gt;") then ">" + Unescape(s[4..])
    else [s[0]] + Unescape(s[1..])
  }

  /** Undoing the entities gives the text back. */
  lemma {:induction false} EscapeIsUndone(s: string)
    ensures Unescape(Escape(s)) == s
  {
    if s != "" {
      var c, rest := s[0], Escape(s[1..]);
      EscapeIsUndone(s[1..]);
      assert s == [c] + s[1..];
      if c == '&' {
        assert Escape(s)[..5] == "&amp;" && Escape(s)[5..] == rest;
      } else if c == '<' {
        assert Escape(s)[..4] == "&lt;" && Escape(s)[4..] == rest && Escape(s)[1] == 'l';
      } else if c == '>' {
        assert Escape(s)[..4] == "&gt;" && Escape(s)[4..] == rest && Escape(s)[1] == 'g';
      } else {
        assert Escape(s)[0] == c && Escape(s)[1..] == rest;
      }
    }
  }

  function HeadOf(i: nat): string { "<tableColumn id=\"" + Decimal(i) + "\" " }

  lemma HeadIsColumnHead(i: nat)
    ensures ColumnHead(HeadOf(i))
  {
    var a, digits, head := "<tableColumn id=\"", Decimal(i), HeadOf(i);
    assert head == a + digits + "\" ";
    assert a[..12] == COLUMN_TAG && head[..12] == a[..12];
    assert forall n :: 0 <= n < |a| ==> head[n] == a[n];
    assert forall n :: |a| <= n < |a| + |digits| ==> head[n] == digits[n - |a|] && digits[n - |a|] in Digits(i);
    assert head[|a| + |digits|] == '"' && head[|head| - 1] == ' ';
    assert forall n :: 0 <= n < |head| - 12 ==> head[12..][n] == head[n + 12];
    assert forall n :: 0 <= n < |head| - 1 ==> head[1..][n] == head[n + 1];
  }

  lemma ColumnIsElement(i: nat, header: string, rest: string)
    ensures ColumnTag(i, header) + rest == Element(HeadOf(i), Escape(header), rest)
  {
    assert "\" name=\"" == "\" " + "name=\"";
  }

  lemma {:induction false} ReadColumns(i: nat, headers: seq<string>, rest: string, word: char -> bool)
    requires !word(' ')
    requires forall k :: 0 <= k < |headers| ==> '"' !in headers[k] && !EndsInName(Escape(headers[k]), word)
    ensures FindHeaders(ColumnTags(i, headers) + rest, word) == EscapeAll(headers) + FindHeaders(rest, word)
    decreases |headers|
  {
    hide FindHeaders, EndsInName, Escape, ColumnTag, Element, ColumnHead, HeadOf;
    if headers == [] {
      assert ColumnTags(i, headers) + rest == rest;
    } else {
      var after := ColumnTags(i + 1, headers[1..]) + rest;
      ReadColumns(i + 1, headers[1..], rest, word);
      ColumnIsElement(i, headers[0], after);
      HeadIsColumnHead(i);
      EscapeMeaning(headers[0]);
      ReadElement(HeadOf(i), Escape(headers[0]), after, word);
      assert ColumnTags(i, headers) + rest == ColumnTag(i, headers[0]) + after;
      assert [Escape(headers[0])] + (EscapeAll(headers[1..]) + FindHeaders(rest, word)) ==
             EscapeAll(headers) + FindHeaders(rest, word);
    }
  }

  /** The first header that ends in `name=` is read back with markup in it. */
  lemma {:induction false} MisreadColumns(i: nat, headers: seq<string>, rest: string, word: char -> bool)
    requires !word(' ') && !word('"') && '"' in rest
    requires forall k :: 0 <= k < |headers| ==> '"' !in headers[k] && Unescaped(headers[k])
    requires exists k :: 0 <= k < |headers| && EndsInName(headers[k], word)
    ensures var found := FindHeaders(ColumnTags(i, headers) + rest, word);
            exists k :: 0 <= k < |headers| && k < |found| && '>' in found[k]
    decreases |headers|
  {
    hide FindHeaders, EndsInName, Escape, ColumnTag, Element, ColumnHead, HeadOf;
    var after := ColumnTags(i + 1, headers[1..]) + rest;
    var found := FindHeaders(ColumnTags(i, headers) + rest, word);
    ColumnIsElement(i, headers[0], after);
    HeadIsColumnHead(i);
    EscapeMeaning(headers[0]);
    assert ColumnTags(i, headers) + rest == ColumnTag(i, headers[0]) + after;
    if EndsInName(headers[0], word) {
      assert '"' in after;
      MisreadElement(HeadOf(i), headers[0], after, word);
      assert '>' in found[0];
    } else {
      ReadElement(HeadOf(i), headers[0], after, word);
      MisreadColumns(i + 1, headers[1..], rest, word);
      var found' := FindHeaders(after, word);
      var k :| 0 <= k < |headers| - 1 && k < |found'| && '>' in found'[k];
      assert found[k + 1] == found'[k];
    }
  }

  lemma {:induction false} NoQuotesFound(s: string, word: char -> bool)
    ensures forall k :: 0 <= k < |FindHeaders(s, word)| ==> '"' !in FindHeaders(s, word)[k]
    decreases |s|
  {
    hide LastName, NameAt;
    if s == [] {
    } else if StartsWith(s, COLUMN_TAG) && LastName(s, IndexOf(s, '>', 12), word) > 0 {
      var j := LastName(s, IndexOf(s, '>', 12), word);
      LastNameFits(s, j, word);
      NoQuotesFound(s[IndexOf(s, '"', j + 6) + 1..], word);
    } else {
      NoQuotesFound(s[1..], word);
    }
  }

  lemma LastNameFits(s: string, j: nat, word: char -> bool)
    requires NameAt(s, j, word)
    ensures j + 6 <= |s| && IndexOf(s, '"', j + 6) < |s|
  {
  }

  // ---------------------------------------------------------------- the whole table part

  lemma LabelHasNoMarkup(n: nat)
    ensures '<' !in Label(n) && '"' !in Label(n)
  {
    LabelDenotesColumn(n);
  }

  lemma DecimalHasNoMarkup(n: nat)
    ensures '<' !in Decimal(n) && '"' !in Decimal(n) && 'N' !in Decimal(n)
  {
  }

  /** Free of tag starts, and of the capital that only a display name contains. */
  predicate Harmless(s: string) {
    '<' !in s && 'N' !in s
  }

  lemma OpeningHarmless()
    ensures Harmless(OpeningRest()) && |OpeningRest()| > 0 && OpeningRest()[0] == '?'
  {
    assert Harmless("?xml version=\"1.0\" ");
    assert Harmless("encoding=\"UTF-8\" ");
    assert Harmless("standalone=\"yes\"?>");
  }

  lemma TableTagHarmless()
    ensures Harmless(TableTagRest()) && |TableTagRest()| > 5 && TableTagRest()[5] == ' '
  {
    assert Harmless("table xmlns=\"http://");
    assert Harmless("schemas.openxmlformats.org");
    assert Harmless("/spreadsheetml/2006/main\" ");
  }

  lemma StripesHarmless()
    ensures '<' !in StripeAttributes()
  {
    assert Harmless("showLastColumn=\"0\" ");
    assert Harmless("showRowStripes=\"1\" ");
    assert Harmless("showColumnStripes=\"0\"/>");
  }

  lemma {:induction false} StyleTagHarmless()
    ensures '<' !in StyleTagRest() && |StyleTagRest()| > 20 && StyleTagRest()[5] == 'S' && StyleTagRest()[20] == '"'
  {
    hide StripeAttributes;
    assert Harmless("tableStyleInfo name=\"");
    assert Harmless("TableStyleMedium2\" ");
    assert Harmless("showFirstColumn=\"0\" ");
    StripesHarmless();
    assert "tableStyleInfo name=\""[5] == 'S' && "tableStyleInfo name=\""[20] == '"';
  }

  /** The reader finds no column before the column elements. */
  lemma {:induction false} SkipPreamble(id: nat, name: string, count: nat, rest: string, word: char -> bool)
    requires '<' !in name
    ensures FindHeaders(Preamble(id, name, count) + rest, word) == FindHeaders(rest, word)
  {
    hide FindHeaders, OpeningRest, TableTagRest, Decimal, Label, ColumnsTag, FilterTag;
    var filter := FilterTag(Label(count));
    var inner := TableTagRest() + (NameAttributes(id, name) + RefAttributes(Label(count)));
    OpeningHarmless();
    TableTagHarmless();
    LabelHasNoMarkup(count);
    FilterTagShape(Label(count));
    TagInnerHarmless(id, name, Label(count));
    var rest3 := ColumnsTag(count) + rest;
    var rest2 := filter + rest3;
    var rest1 := ("<" + inner) + rest2;
    assert Preamble(id, name, count) + rest == Opening() + rest1;
    assert Opening()[1..] == OpeningRest() && ("<" + inner)[1..] == inner && ("<" + inner)[6] == ' ';
    assert Opening()[1] == OpeningRest()[0] && ("<" + inner)[6] == TableTagRest()[5];
    SkipTag(Opening(), rest1, 1, word);
    SkipTag("<" + inner, rest2, 6, word);
    SkipTag(filter, rest3, 1, word);
    SkipColumnsTag(count, rest, word);
  }

  lemma RefHarmless(end: string)
    requires '<' !in end
    ensures '<' !in RefAttributes(end)
  {
    assert Harmless(" ref=\"A1:");
    assert Harmless("1\" headerRowCount=\"1\" ");
    assert Harmless("totalsRowShown=\"0\">");
  }

  lemma {:induction false} NameAttributesHarmless(id: nat, name: string)
    requires '<' !in name
    ensures '<' !in NameAttributes(id, name)
  {
    hide Decimal;
    DecimalHasNoMarkup(id);
    assert '<' !in "id=\"" && '<' !in "\" name=\"";
    assert '<' !in "\" displayName=\"";
  }

  lemma {:induction false} TagInnerHarmless(id: nat, name: string, end: string)
    requires '<' !in name && '<' !in end
    ensures '<' !in TableTagRest() + (NameAttributes(id, name) + RefAttributes(end))
  {
    hide TableTagRest, NameAttributes, RefAttributes;
    TableTagHarmless();
    NameAttributesHarmless(id, name);
    RefHarmless(end);
  }

  lemma FilterTagShape(end: string)
    requires '<' !in end
    ensures |FilterTag(end)| > 1 && FilterTag(end)[1] == 'a' && '<' !in FilterTag(end)[1..]
  {
    var tag := FilterTag(end);
    var a := "<autoFilter ref=\"A1:";
    assert tag == a + (end + "1\"/>");
    assert tag[1..] == a[1..] + (end + "1\"/>");
  }

  lemma {:induction false} EndingHasNoColumn(word: char -> bool)
    ensures FindHeaders(Ending(), word) == [] && '"' in Ending()
  {
    hide FindHeaders, StyleTagRest;
    var close := "</table>";
    StyleTagHarmless();
    SkipTag(ColumnsEnd(), StyleTag() + close, 1, word);
    assert StyleTag()[1..] == StyleTagRest() && StyleTag()[6] == StyleTagRest()[5];
    SkipTag(StyleTag(), close, 6, word);
    assert close + "" == close;
    SkipTag(close, "", 1, word);
    NothingFound(word);
    assert Ending()[|ColumnsEnd()| + 21] == StyleTag()[21] == StyleTagRest()[20];
  }

  lemma NothingFound(word: char -> bool)
    ensures FindHeaders("", word) == []
  {
  }

  /** Reading a printed table gives back the escaped headers. */
  lemma {:induction false} ReadsEscapedHeaders(id: nat, name: string, headers: seq<string>, word: char -> bool)
    requires !word(' ') && '<' !in name
    requires forall k :: 0 <= k < |headers| ==> '"' !in headers[k] && !EndsInName(Escape(headers[k]), word)
    ensures FindHeaders(TableXml(id, name, headers), word) == EscapeAll(headers)
  {
    hide FindHeaders, Preamble, Ending, EndsInName, Escape, ColumnTags;
    SkipPreamble(id, name, |headers|, ColumnTags(1, headers) + Ending(), word);
    ReadColumns(1, headers, Ending(), word);
    EndingHasNoColumn(word);
  }

  lemma {:induction false} EscapeAllUnescaped(headers: seq<string>)
    requires forall k :: 0 <= k < |headers| ==> Unescaped(headers[k])
    ensures EscapeAll(headers) == headers
  {
    if headers != [] {
      EscapeMeaning(headers[0]);
      EscapeAllUnescaped(headers[1..]);
      assert headers == [headers[0]] + headers[1..];
    }
  }

  /**
   Print and parse: for headers without `&`, `<` and `>`, reading the printed table returns exactly the headers if and
   only if no header holds a quote or ends in a free-standing `name=`.
   */
  lemma {:induction false} HeadersRoundTripExactly(id: nat, name: string, headers: seq<string>, word: char -> bool)
    requires !word(' ') && !word('"') && '<' !in name
    requires forall k :: 0 <= k < |headers| ==> Unescaped(headers[k])
    ensures FindHeaders(TableXml(id, name, headers), word) == headers <==>
            forall k :: 0 <= k < |headers| ==> '"' !in headers[k] && !EndsInName(headers[k], word)
  {
    hide FindHeaders, Preamble, Ending, EndsInName, Escape, ColumnTags, TableXml;
    var found := FindHeaders(TableXml(id, name, headers), word);
    EscapeAllUnescaped(headers);
    forall k | 0 <= k < |headers| ensures Escape(headers[k]) == headers[k] { EscapeMeaning(headers[k]); }
    NoQuotesFound(TableXml(id, name, headers), word);
    if forall k :: 0 <= k < |headers| ==> '"' !in headers[k] && !EndsInName(headers[k], word) {
      ReadsEscapedHeaders(id, name, headers, word);
    } else if forall k :: 0 <= k < |headers| ==> '"' !in headers[k] {
      MisreadTable(id, name, headers, word);
      var k :| 0 <= k < |headers| && k < |found| && '>' in found[k];
      assert Unescaped(headers[k]);
    } else {
      var k :| 0 <= k < |headers| && '"' in headers[k];
      if k < |found| {
        assert '"' !in found[k];
      }
    }
  }

  lemma {:induction false} MisreadTable(id: nat, name: string, headers: seq<string>, word: char -> bool)
    requires !word(' ') && !word('"') && '<' !in name
    requires forall k :: 0 <= k < |headers| ==> '"' !in headers[k] && Unescaped(headers[k])
    requires exists k :: 0 <= k < |headers| && EndsInName(headers[k], word)
    ensures var found := FindHeaders(TableXml(id, name, headers), word);
            exists k :: 0 <= k < |headers| && k < |found| && '>' in found[k]
  {
    hide FindHeaders, Preamble, Ending, EndsInName, ColumnTags;
    SkipPreamble(id, name, |headers|, ColumnTags(1, headers) + Ending(), word);
    EndingHasNoColumn(word);
    MisreadColumns(1, headers, Ending(), word);
  }

  // ---------------------------------------------------------------- reading the table name

  /** The name ends in the attribute name that the reader looks for. */
  predicate EndsInDisplayName(name: string) {
    DisplayNameStands(name, |name| - 12)
  }

  /** A name the reader recovers. A name ending in `displayName=` opens an attribute with its own closing quote, which
      reads the text up to the next quote: the thirteen characters that happen to follow. */
  predicate GoodName(name: string) {
    name != [] && '"' !in name && (EndsInDisplayName(name) ==> name == " displayName=")
  }

  /** A text in which a display name follows a name attribute; `pre` ends just before the first copy of the name. */
  function NamedText(pre: string, name: string, rest: string): string {
    pre + (name + ("\" " + ("displayName=\"" + (name + ("\"" + rest)))))
  }

  lemma NamedTextFront(pre: string, name: string, back: string)
    requires '"' !in name
    ensures var s := pre + (name + ("\" " + back));
            && (forall n :: 0 <= n < |pre| ==> s[n] == pre[n])
            && (forall n :: |pre| <= n < |pre| + |name| ==> s[n] == name[n - |pre|] && s[n] != '"')
            && s[|pre| + |name|] == '"' && s[|pre| + |name| + 1] == ' ' && s[|pre| + |name| + 2..] == back
  {
    var s := pre + (name + ("\" " + back));
    Glue(pre, name, "\" ", back);
    assert s[|pre| + |name|..|pre| + |name| + 2] == "\" ";
    assert s[|pre| + |name|] == s[|pre| + |name|..|pre| + |name| + 2][0];
    assert s[|pre| + |name| + 1] == s[|pre| + |name|..|pre| + |name| + 2][1];
    forall n | |pre| <= n < |pre| + |name| ensures s[n] == name[n - |pre|] && s[n] != '"' {
      assert s[n] == name[n - |pre|] && name[n - |pre|] in name;
    }
  }

  lemma NamedTextBack(attribute: string, name: string, tail: string)
    requires '"' !in name && |attribute| == 13 && tail != [] && tail[0] == '"'
    ensures var s := attribute + (name + tail);
            && IndexOf(s, '"', 13) == 13 + |name| && s[13..13 + |name|] == name
  {
    var s := attribute + (name + tail);
    assert forall n :: 13 <= n < 13 + |name| ==> s[n] == name[n - 13] && name[n - 13] in name;
    assert s[13 + |name|] == tail[0];
  }

  lemma IndexOfSuffix(s: string, from: nat, c: char, k: nat)
    requires from <= |s| && k <= |s| - from
    ensures IndexOf(s, c, from + k) == from + IndexOf(s[from..], c, k)
  {
    var m, n := IndexOf(s[from..], c, k), IndexOf(s, c, from + k);
    assert forall i :: k <= i < m ==> s[from + i] == s[from..][i];
    assert forall i :: from + k <= i < n ==> s[i] == s[from..][i - from];
    assert m < |s| - from ==> s[from + m] == s[from..][m];
    assert n < |s| ==> s[n] == s[from..][n - from];
  }

  lemma OpensInSuffix(s: string, at: nat)
    requires at <= |s| && DisplayNameOpens(s[at..], 0)
    ensures DisplayNameOpens(s, at)
  {
    assert forall n :: 0 <= n < |s| - at ==> s[at..][n] == s[at + n];
  }

  lemma {:induction false} NamedTextShape(pre: string, name: string, rest: string)
    requires '"' !in name
    ensures var s, at := NamedText(pre, name, rest), |pre| + |name| + 2;
            && |s| == at + 13 + |name| + 1 + |rest|
            && (forall n :: 0 <= n < |pre| ==> s[n] == pre[n])
            && (forall n :: |pre| <= n < |pre| + |name| ==> s[n] == name[n - |pre|] && s[n] != '"')
            && s[|pre| + |name|] == '"' && s[|pre| + |name| + 1] == ' ' && DisplayNameOpens(s, at)
  {
    hide DisplayNameOpens;
    var attribute, tail := "displayName=\"", "\"" + rest;
    NamedTextFront(pre, name, attribute + (name + tail));
    AttributeOpens(attribute, name + tail);
    OpensInSuffix(NamedText(pre, name, rest), |pre| + |name| + 2);
  }

  lemma NamedTextName(pre: string, name: string, rest: string)
    requires '"' !in name
    ensures var s, at := NamedText(pre, name, rest), |pre| + |name| + 15;
            at + |name| < |s| && IndexOf(s, '"', at) == at + |name| && s[at..at + |name|] == name
  {
    var s, at := NamedText(pre, name, rest), |pre| + |name| + 2;
    var attribute, tail := "displayName=\"", "\"" + rest;
    NamedTextFront(pre, name, attribute + (name + tail));
    NamedTextBack(attribute, name, tail);
    IndexOfSuffix(s, at, '"', 13);
    assert s[at + 13..at + 13 + |name|] == s[at..][13..13 + |name|];
  }

  lemma AttributeOpens(attribute: string, rest: string)
    requires attribute == "displayName=\""
    ensures |attribute| == 13 && DisplayNameOpens(attribute + rest, 0) && DisplayNameOpens(attribute, 0)
  {
  }

  /** A match before the real display name would have to end the first copy of the name. */
  lemma {:induction false} EarlierMatchMeansEnd(pre: string, name: string, rest: string, p: nat)
    requires pre != [] && pre[|pre| - 1] == '"' && 'N' !in pre && '"' !in name
    requires p < |pre| + |name| + 2 && DisplayNameAt(NamedText(pre, name, rest), p)
    ensures EndsInDisplayName(name) && p + 12 == |pre| + |name|
  {
    hide NamedText;
    var s, at, quote := NamedText(pre, name, rest), |pre| + |name| + 2, |pre| + |name|;
    NamedTextShape(pre, name, rest);
    assert s[p + 7] == 'N' && s[p + 12] == '"';
    assert forall n :: 0 <= n < |pre| ==> s[n] == pre[n] && pre[n] in pre;
    assert s[|pre| - 1] == '"';
    assert p + 7 >= |pre|;
    assert p >= |pre|;
    assert p + 12 == quote;
    assert forall n :: p <= n < quote ==> s[n] == name[n - |pre|];
  }

  lemma {:induction false} FindsName(pre: string, name: string, rest: string, word: char -> bool)
    requires pre != [] && pre[|pre| - 1] == '"' && 'N' !in pre
    requires name != [] && '"' !in name && !EndsInDisplayName(name)
    ensures FindName(NamedText(pre, name, rest), word) == Some(name)
  {
    hide NamedText, DisplayNameAt, EndsInDisplayName;
    var s, at := NamedText(pre, name, rest), |pre| + |name| + 2;
    NamedTextShape(pre, name, rest);
    NamedTextName(pre, name, rest);
    assert DisplayNameAt(s, at) by { DisplayNameHere(s, at); }
    forall p | 0 <= p < at ensures !DisplayNameAt(s, p) {
      if DisplayNameAt(s, p) {
        EarlierMatchMeansEnd(pre, name, rest, p);
      }
    }
    assert FirstDisplayName(s, 0) == at;
  }

  lemma DisplayNameHere(s: string, at: nat)
    requires DisplayNameOpens(s, at) && at + 13 < IndexOf(s, '"', at + 13) < |s|
    ensures DisplayNameAt(s, at)
  {
  }

  /** A name that ends in `displayName=` makes the reader stop at that ending. */
  lemma {:induction false} FindsEnding(pre: string, name: string, rest: string, word: char -> bool)
    requires pre != [] && pre[|pre| - 1] == '"' && 'N' !in pre && '"' !in name && EndsInDisplayName(name)
    ensures FindName(NamedText(pre, name, rest), word) == Some(" displayName=")
  {
    hide NamedText, DisplayNameAt;
    var s, quote := NamedText(pre, name, rest), |pre| + |name|;
    var p := quote - 12;
    NamedTextShape(pre, name, rest);
    assert forall n :: p <= n < quote ==> s[n] == name[n - |pre|];
    assert DisplayNameOpens(s, p);
    assert IndexOf(s, '"', quote + 1) == quote + 14;
    assert DisplayNameAt(s, p) by { DisplayNameHere(s, p); }
    forall n | 0 <= n < p ensures !DisplayNameAt(s, n) {
      if DisplayNameAt(s, n) {
        EarlierMatchMeansEnd(pre, name, rest, n);
      }
    }
    assert FirstDisplayName(s, 0) == p;
    EndingText(s[quote + 1..quote + 14]);
  }

  lemma EndingText(t: string)
    requires |t| == 13 && t[0] == ' ' && DisplayNameStands(t, 1)
    ensures t == " displayName="
  {
  }

  lemma FoundNameShape(s: string, word: char -> bool)
    ensures FindName(s, word).Some? ==> FindName(s, word).value != "" && '"' !in FindName(s, word).value
  {
    var p, q := FirstDisplayName(s, 0), FirstPlainName(s, 0, word);
    if p < |s| {
      assert DisplayNameAt(s, p);
    } else if q < |s| {
      assert PlainNameAt(s, q, word);
    }
  }

  lemma {:induction false} NamedAttributes(front: string, id: nat, name: string, rest: string)
    ensures front + (NameAttributes(id, name) + rest) ==
            NamedText(front + ("id=\"" + (Decimal(id) + "\" name=\"")), name, rest)
  {
    hide Decimal;
    var number, open, next, close := "id=\"" + Decimal(id), "\" name=\"", "\" displayName=\"", "\"";
    assert next == "\" " + "displayName=\"";
    assert NameAttributes(id, name) == number + open + name + next + name + close;
    Regroup(front, number, open, name, next, close, rest);
    assert number + open == "id=\"" + (Decimal(id) + open);
  }

  lemma Regroup(front: string, number: string, open: string, name: string, next: string, close: string, rest: string)
    ensures front + (number + open + name + next + name + close + rest) ==
            front + (number + open) + (name + (next + (name + (close + rest))))
  {
  }

  /** What the reader needs to see of a printed table to find its name. */
  lemma {:induction false} TableIsNamedText(id: nat, name: string, headers: seq<string>)
      returns (pre: string, rest: string)
    ensures pre != [] && pre[|pre| - 1] == '"' && 'N' !in pre
    ensures TableXml(id, name, headers) == NamedText(pre, name, rest)
  {
    hide OpeningRest, TableTagRest, Decimal, Ranges, ColumnTags, Ending, NameAttributes, NamedText;
    OpeningHarmless();
    TableTagHarmless();
    DecimalHasNoMarkup(id);
    var front, attribute := Opening() + TableTag(), "id=\"" + (Decimal(id) + "\" name=\"");
    rest := Ranges(|headers|) + (ColumnTags(1, headers) + Ending());
    pre := front + attribute;
    assert 'N' !in "id=\"" && 'N' !in "\" name=\"" && 'N' !in Opening() && 'N' !in TableTag();
    assert attribute[|attribute| - 1] == '"';
    NamedAttributes(front, id, name, rest);
    assert TableXml(id, name, headers) == front + (NameAttributes(id, name) + rest);
  }

  /** The reader recovers the table's name exactly when it is a good one. */
  lemma {:induction false} NameRoundTrip(id: nat, name: string, headers: seq<string>, word: char -> bool)
    ensures FindName(TableXml(id, name, headers), word) == Some(name) <==> GoodName(name)
  {
    hide FindName, NamedText, TableXml, EndsInDisplayName;
    var pre, rest := TableIsNamedText(id, name, headers);
    FoundNameShape(TableXml(id, name, headers), word);
    if name != [] && '"' !in name {
      if EndsInDisplayName(name) {
        FindsEnding(pre, name, rest, word);
      } else {
        FindsName(pre, name, rest, word);
      }
    }
  }

  // ---------------------------------------------------------------- packages

  /** A part of the package; the archive keeps the order in which parts were written. */
  datatype Part = Part(name: string, text: string)

  /** A sheet with its table. */
  datatype Table = Table(sheet: string, name: string, headers: seq<string>)

  predicate EndsWith(s: string, word: string) {
    |word| <= |s| && s[|s| - |word|..] == word
  }

  predicate IsTablePart(name: string) {
    StartsWith(name, "xl/tables/") && EndsWith(name, ".xml")
  }

  /** A part of the tables folder, whatever stands between folder and extension. */
  lemma IsTablePartExactly(name: string)
    ensures IsTablePart(name) <==> exists middle :: name == "xl/tables/" + middle + ".xml"
  {
    if IsTablePart(name) {
      assert name[..10][9] == name[9] == '/' && name[|name| - 4..] == ".xml";
      assert |name| >= 14 by {
        assert forall k :: |name| - 4 <= k < |name| ==> name[k] == ".xml"[k - (|name| - 4)];
      }
      assert name == "xl/tables/" + name[10..|name| - 4] + ".xml";
    }
    if middle :| name == "xl/tables/" + middle + ".xml" {
      assert name[..10] == "xl/tables/" && name[|name| - 4..] == ".xml";
    }
  }

  /** The parts written for table number `i`; `other` gives the texts this model leaves open. */
  function TableParts(i: nat, table: Table, other: string -> string): seq<Part> {
    var sheet := "xl/worksheets/sheet" + Decimal(i) + ".xml";
    var rels := "xl/worksheets/_rels/sheet" + Decimal(i) + ".xml.rels";
    [Part(sheet, other(sheet)), Part(rels, other(rels)),
     Part("xl/tables/table" + Decimal(i) + ".xml", TableXml(i, table.name, table.headers))]
  }

  function AllTableParts(i: nat, tables: seq<Table>, other: string -> string): seq<Part>
    decreases |tables|
  {
    if tables == [] then [] else TableParts(i, tables[0], other) + AllTableParts(i + 1, tables[1..], other)
  }

  function FixedParts(other: string -> string): seq<Part> {
    [Part("[Content_Types].xml", other("[Content_Types].xml")), Part("_rels/.rels", other("_rels/.rels")),
     Part("docProps/core.xml", other("docProps/core.xml")), Part("docProps/app.xml", other("docProps/app.xml")),
     Part("xl/workbook.xml", other("xl/workbook.xml")),
     Part("xl/_rels/workbook.xml.rels", other("xl/_rels/workbook.xml.rels")),
     Part("xl/styles.xml", other("xl/styles.xml"))]
  }

  function GenerateWorkbook(tables: seq<Table>, other: string -> string): seq<Part> {
    AllTableParts(1, tables, other) + FixedParts(other)
  }

  /** What one part adds to the table index. */
  function AddPart(index: map<string, seq<string>>, part: Part, word: char -> bool): map<string, seq<string>> {
    if !IsTablePart(part.name) then index
    else
      match FindName(part.text, word)
      case None => index
      case Some(name) => index[name := FindHeaders(part.text, word)]
  }

  function IndexFrom(index: map<string, seq<string>>, parts: seq<Part>, word: char -> bool): map<string, seq<string>>
    decreases |parts|
  {
    if parts == [] then index else IndexFrom(AddPart(index, parts[0], word), parts[1..], word)
  }

  method TablesOfPackage(parts: seq<Part>, word: char -> bool) returns (tables: map<string, seq<string>>)
    ensures tables == IndexFrom(map[], parts, word)
  {
    hide FindHeaders, FindName, IsTablePart;
    tables := map[];
    for k := 0 to |parts|
      invariant IndexFrom(tables, parts[k..], word) == IndexFrom(map[], parts, word)
    {
      assert parts[k..][1..] == parts[k + 1..];
      if !IsTablePart(parts[k].name) {
        continue;
      }
      var name := FindName(parts[k].text, word);
      if name.None? {
        continue;
      }
      tables := tables[name.value := FindHeaders(parts[k].text, word)];
    }
  }

  /** A table whose name and headers survive printing and reading. */
  predicate Printable(t: Table, word: char -> bool) {
    GoodName(t.name) && '<' !in t.name && forall k :: 0 <= k < |t.headers| ==>
                          '"' !in t.headers[k] && Unescaped(t.headers[k]) && !EndsInName(t.headers[k], word)
  }

  lemma NotTables(digits: string)
    ensures !IsTablePart("xl/worksheets/sheet" + digits + ".xml")
    ensures !IsTablePart("xl/worksheets/_rels/sheet" + digits + ".xml.rels")
    ensures IsTablePart("xl/tables/table" + digits + ".xml")
  {
    var a, b, c := "xl/worksheets/sheet" + digits + ".xml", "xl/worksheets/_rels/sheet" + digits + ".xml.rels",
                   "xl/tables/table" + digits + ".xml";
    assert a[..10][3] == 'w' && b[..10][3] == 'w' && "xl/tables/"[3] == 't';
    assert c[..10] == "xl/tables/" && c[|c| - 4..] == ".xml";
  }

  lemma NotATablePart(name: string)
    requires |name| >= 10 && (name[0] != 'x' || name[3] != 't')
    ensures !IsTablePart(name)
  {
    assert "xl/tables/"[3] == 't' && "xl/tables/"[0] == 'x';
    assert name[..10][0] == name[0] && name[..10][3] == name[3];
  }

  lemma {:induction false} FixedPartsNotTables(other: string -> string)
    ensures forall k :: 0 <= k < |FixedParts(other)| ==> !IsTablePart(FixedParts(other)[k].name)
  {
    hide IsTablePart;
    NotATablePart("[Content_Types].xml");
    NotATablePart("_rels/.rels");
    NotATablePart("docProps/core.xml");
    NotATablePart("docProps/app.xml");
    NotATablePart("xl/workbook.xml");
    NotATablePart("xl/_rels/workbook.xml.rels");
    NotATablePart("xl/styles.xml");
  }

  lemma {:induction false} OtherPartsAddNothing(index: map<string, seq<string>>, parts: seq<Part>, word: char -> bool)
    requires forall k :: 0 <= k < |parts| ==> !IsTablePart(parts[k].name)
    ensures IndexFrom(index, parts, word) == index
    decreases |parts|
  {
    hide IsTablePart, FindName, FindHeaders;
    if parts != [] {
      OtherPartsAddNothing(index, parts[1..], word);
    }
  }

  lemma {:induction false} IndexConcat(index: map<string, seq<string>>, a: seq<Part>, b: seq<Part>, word: char -> bool)
    ensures IndexFrom(index, a + b, word) == IndexFrom(IndexFrom(index, a, word), b, word)
    decreases |a|
  {
    hide AddPart;
    if a == [] {
      assert a + b == b;
    } else {
      assert (a + b)[0] == a[0] && (a + b)[1..] == a[1..] + b;
      IndexConcat(AddPart(index, a[0], word), a[1..], b, word);
    }
  }

  /** Reading the parts of one table adds exactly that table. */
  lemma {:induction false} OneTableAdded(index: map<string, seq<string>>, i: nat, t: Table, other: string -> string,
          word: char -> bool)
    requires !word(' ') && !word('"') && Printable(t, word)
    ensures IndexFrom(index, TableParts(i, t, other), word) == index[t.name := t.headers]
  {
    hide FindName, FindHeaders, TableXml, IsTablePart, EndsInName, EndsInDisplayName, Decimal;
    NotTables(Decimal(i));
    NameRoundTrip(i, t.name, t.headers, word);
    HeadersRoundTripExactly(i, t.name, t.headers, word);
    var parts := TableParts(i, t, other);
    assert AddPart(index, parts[0], word) == index && AddPart(index, parts[1], word) == index;
    assert AddPart(index, parts[2], word) == index[t.name := t.headers];
    assert parts[1..][0] == parts[1] && parts[1..][1..] == [parts[2]];
    assert IndexFrom(index, [parts[2]], word) == AddPart(index, parts[2], word);
    assert IndexFrom(index, parts[1..], word) == IndexFrom(index, [parts[2]], word);
  }

  function Insertions(index: map<string, seq<string>>, tables: seq<Table>): map<string, seq<string>>
    decreases |tables|
  {
    if tables == [] then index else Insertions(index[tables[0].name := tables[0].headers], tables[1..])
  }

  lemma {:induction false} TablesAdded(index: map<string, seq<string>>, i: nat, tables: seq<Table>,
          other: string -> string, word: char -> bool)
    requires !word(' ') && !word('"') && forall k :: 0 <= k < |tables| ==> Printable(tables[k], word)
    ensures IndexFrom(index, AllTableParts(i, tables, other), word) == Insertions(index, tables)
    decreases |tables|
  {
    hide AddPart, TableParts, Printable, IndexFrom;
    if tables == [] {
      IndexOfNothing(index, word);
    } else {
      OneTableAdded(index, i, tables[0], other, word);
      IndexConcat(index, TableParts(i, tables[0], other), AllTableParts(i + 1, tables[1..], other), word);
      TablesAdded(index[tables[0].name := tables[0].headers], i + 1, tables[1..], other, word);
    }
  }

  lemma IndexOfNothing(index: map<string, seq<string>>, word: char -> bool)
    ensures IndexFrom(index, [], word) == index
  {
  }

  lemma {:induction false} InsertionsHoldAll(index: map<string, seq<string>>, tables: seq<Table>)
    requires forall j, k :: 0 <= j < k < |tables| ==> tables[j].name != tables[k].name
    ensures var r := Insertions(index, tables);
            && (forall k :: 0 <= k < |tables| ==> tables[k].name in r && r[tables[k].name] == tables[k].headers)
            && (forall name :: (forall k :: 0 <= k < |tables| ==> tables[k].name != name) ==>
                  (name in r <==> name in index) && (name in index ==> r[name] == index[name]))
    decreases |tables|
  {
    if tables != [] {
      var index', rest := index[tables[0].name := tables[0].headers], tables[1..];
      InsertionsHoldAll(index', rest);
      assert forall k :: 0 <= k < |rest| ==> rest[k] == tables[k + 1];
    }
  }

  /**
   Print and parse a whole workbook: the reader returns exactly the tables that were written, each name with its
   headers and nothing else.
   */
  lemma {:induction false} WorkbookRoundTrip(tables: seq<Table>, other: string -> string, word: char -> bool)
    requires !word(' ') && !word('"')
    requires forall k :: 0 <= k < |tables| ==> Printable(tables[k], word)
    requires forall j, k :: 0 <= j < k < |tables| ==> tables[j].name != tables[k].name
    ensures var r := IndexFrom(map[], GenerateWorkbook(tables, other), word);
            && (forall k :: 0 <= k < |tables| ==> tables[k].name in r && r[tables[k].name] == tables[k].headers)
            && (forall name :: name in r ==> exists k :: 0 <= k < |tables| && tables[k].name == name)
  {
    hide AddPart, AllTableParts, FixedParts, IndexFrom, Printable, Insertions;
    IndexConcat(map[], AllTableParts(1, tables, other), FixedParts(other), word);
    TablesAdded(map[], 1, tables, other, word);
    FixedPartsNotTables(other);
    OtherPartsAddNothing(Insertions(map[], tables), FixedParts(other), word);
    InsertionsHoldAll(map[], tables);
  }
}
