/** The check that a workbook package would be accepted: required parts, declared content types, table and columns. */
module WorkbookCheck {
  import opened Text
  import opened Lists
  import opened TablePart

  const SHEET := "Demandas"
  const TABLE := "tbDemandas"
  const CONTENT_TYPES := "[Content_Types].xml"

  const COLUMNS := ["TaskId", "Título", "Bucket", "Progresso", "Prioridade", "Responsáveis", "Início", "Vencimento",
                    "Última alteração", "Link Planner", "Sincronizado em", "Bloqueado", "Descrição do bloqueio",
                    "Próxima ação", "Risco", "Observações"]

  const REQUIRED_PARTS := [CONTENT_TYPES, "_rels/.rels", "xl/workbook.xml", "docProps/core.xml", "docProps/app.xml"]

  const DECLARED_PARTS := ["/docProps/core.xml", "/docProps/app.xml"]

  datatype Problem = PartMissing(part: string) | ContentTypeMissing(part: string) | TableMissing
                   | ColumnsMissing(columns: seq<string>)

  function AbsentFrom(present: set<string>): string -> bool { (name: string) => name !in present }

  /** The names not present, in order. */
  function Missing(names: seq<string>, present: set<string>): (r: seq<string>)
    ensures forall x :: x in r <==> x in names && x !in present
  {
    Filter(names, AbsentFrom(present))
  }

  function PartNames(parts: seq<Part>): set<string> { set p | p in parts :: p.name }

  /** The text stored last under a name. */
  function TextOf(parts: seq<Part>, name: string): string {
    if parts == [] then ""
    else if parts[|parts| - 1].name == name then parts[|parts| - 1].text
    else TextOf(parts[..|parts| - 1], name)
  }

  predicate Declares(parts: seq<Part>, part: string) {
    Mentions(TextOf(parts, CONTENT_TYPES), part)
  }

  ghost predicate HasColumns(headers: seq<string>) {
    forall column :: column in COLUMNS ==> column in headers
  }

  /** The content-types text declares both property parts. */
  ghost predicate DeclaresProperties(contentTypes: string) {
    forall part :: part in DECLARED_PARTS ==> Mentions(contentTypes, part)
  }

  /** What a package must be to be accepted. */
  ghost predicate Acceptable(parts: seq<Part>, word: char -> bool) {
    var tables := IndexFrom(map[], parts, word);
    && (forall part :: part in REQUIRED_PARTS ==> part in PartNames(parts))
    && (forall part :: part in DECLARED_PARTS ==> Declares(parts, part))
    && TABLE in tables && HasColumns(tables[TABLE])
  }

  method ValidateWorkbook(parts: seq<Part>, word: char -> bool)
    returns (problems: seq<Problem>, tables: map<string, seq<string>>, columns: seq<string>)
    ensures tables == IndexFrom(map[], parts, word) && columns == if TABLE in tables then tables[TABLE] else []
    ensures forall part :: PartMissing(part) in problems <==> part in REQUIRED_PARTS && part !in PartNames(parts)
    ensures forall part :: ContentTypeMissing(part) in problems <==> part in DECLARED_PARTS && !Declares(parts, part)
    ensures TableMissing in problems <==> TABLE !in tables
    ensures forall missing :: ColumnsMissing(missing) in problems <==>
              TABLE in tables && missing != [] && missing == Missing(COLUMNS, set x | x in columns)
    ensures problems == [] <==> Acceptable(parts, word)
  {
    hide IndexFrom, Mentions, Missing, TextOf;
    problems := [];
    for k := 0 to |REQUIRED_PARTS|
      invariant forall p :: p in problems <==>
                  p.PartMissing? && p.part in REQUIRED_PARTS[..k] && p.part !in PartNames(parts)
    {
      assert REQUIRED_PARTS[..k + 1] == REQUIRED_PARTS[..k] + [REQUIRED_PARTS[k]];
      if REQUIRED_PARTS[k] !in PartNames(parts) {
        problems := problems + [PartMissing(REQUIRED_PARTS[k])];
      }
    }
    assert REQUIRED_PARTS[..|REQUIRED_PARTS|] == REQUIRED_PARTS;
    ghost var missingParts := problems;
    for k := 0 to |DECLARED_PARTS|
      invariant forall p :: p in problems <==>
                  p in missingParts || (p.ContentTypeMissing? && p.part in DECLARED_PARTS[..k]
                      && !Declares(parts, p.part))
    {
      assert DECLARED_PARTS[..k + 1] == DECLARED_PARTS[..k] + [DECLARED_PARTS[k]];
      if !Declares(parts, DECLARED_PARTS[k]) {
        problems := problems + [ContentTypeMissing(DECLARED_PARTS[k])];
      }
    }
    assert DECLARED_PARTS[..|DECLARED_PARTS|] == DECLARED_PARTS;
    tables := TablesOfPackage(parts, word);
    columns := if TABLE in tables then tables[TABLE] else [];
    if TABLE !in tables {
      problems := problems + [TableMissing];
    } else {
      var missing := Missing(COLUMNS, set x | x in columns);
      if missing != [] {
        problems := problems + [ColumnsMissing(missing)];
      }
    }
    NoProblemExactly(parts, word, problems, columns);
  }

  lemma {:induction false} NoProblemExactly(parts: seq<Part>, word: char -> bool, problems: seq<Problem>,
          columns: seq<string>)
    requires var tables := IndexFrom(map[], parts, word);
             && columns == (if TABLE in tables then tables[TABLE] else [])
             && (forall part :: PartMissing(part) in problems <==> part in REQUIRED_PARTS && part !in PartNames(parts))
             && (forall part :: ContentTypeMissing(part) in problems <==>
                   part in DECLARED_PARTS && !Declares(parts, part))
             && (TableMissing in problems <==> TABLE !in tables)
             && (forall missing :: ColumnsMissing(missing) in problems <==>
                   TABLE in tables && missing != [] && missing == Missing(COLUMNS, set x | x in columns))
    ensures problems == [] <==> Acceptable(parts, word)
  {
    hide IndexFrom, Mentions, Missing, TextOf;
    var missing := Missing(COLUMNS, set x | x in columns);
    if missing != [] {
      assert missing[0] in missing;
    }
    if problems != [] {
      var p := problems[0];
      assert p in problems;
      if p.PartMissing? {
        assert PartMissing(p.part) in problems;
      } else if p.ContentTypeMissing? {
        assert ContentTypeMissing(p.part) in problems;
      } else if p.ColumnsMissing? {
        assert ColumnsMissing(p.columns) in problems;
      }
    } else {
      assert forall part :: PartMissing(part) !in problems && ContentTypeMissing(part) !in problems;
      assert ColumnsMissing(missing) !in problems;
    }
  }

  // ---------------------------------------------------------------- the generated package

  function Override(part: string, contentType: string): string {
    "<Override PartName=\"" + part + ("\" ContentType=\"" + contentType + "\"/>")
  }

  function TypesOpening(): string {
    "<?xml version=\"1.0\" encoding=\"UTF-8\" standalone=\"yes\"?>"
    + "<Types xmlns=\"http://schemas.openxmlformats.org/package/2006/content-types\">"
    + ("<Default Extension=\"rels\" "
       + "ContentType=\"application/vnd.openxmlformats-package.relationships+xml\"/>")
    + "<Default Extension=\"xml\" ContentType=\"application/xml\"/>"
  }

  function MainOverrides(): string {
    Override("/xl/workbook.xml", "application/vnd.openxmlformats-officedocument.spreadsheetml.sheet.main+xml")
    + Override("/xl/styles.xml", "application/vnd.openxmlformats-officedocument.spreadsheetml.styles+xml")
  }

  function CoreOverride(): string {
    Override("/docProps/core.xml", "application/vnd.openxmlformats-package.core-properties+xml")
  }

  function AppOverride(): string {
    Override("/docProps/app.xml", "application/vnd.openxmlformats-officedocument.extended-properties+xml")
  }

  function TableOverrides(i: nat, count: nat): string
    decreases count
  {
    if count == 0 then ""
    else
      Override("/xl/worksheets/sheet" + Decimal(i) + ".xml",
               "application/vnd.openxmlformats-officedocument.spreadsheetml.worksheet+xml")
      + Override("/xl/tables/table" + Decimal(i) + ".xml",
                 "application/vnd.openxmlformats-officedocument.spreadsheetml.table+xml")
      + TableOverrides(i + 1, count - 1)
  }

  /** The content-types part of a package with `count` tables. */
  function ContentTypes(count: nat): string {
    hide *;
    TypesOpening() + MainOverrides() + CoreOverride() + AppOverride() + (TableOverrides(1, count) + "</Types>")
  }

  lemma MentionsMiddle(a: string, word: string, b: string)
    ensures Mentions(a + word + b, word)
  {
    assert OccursAt(a + word + b, |a|, word);
  }

  lemma {:induction false} TypesDeclareParts(count: nat)
    ensures DeclaresProperties(ContentTypes(count))
  {
    hide TypesOpening, MainOverrides, TableOverrides, Mentions;
    var front, back := TypesOpening() + MainOverrides(), TableOverrides(1, count) + "</Types>";
    var quote, core, app := "<Override PartName=\"", "/docProps/core.xml", "/docProps/app.xml";
    var coreRest := "\" ContentType=\"" + "application/vnd.openxmlformats-package.core-properties+xml" + "\"/>";
    var appRest := "\" ContentType=\"" + "application/vnd.openxmlformats-officedocument.extended-properties+xml" + "\"/>";
    assert CoreOverride() == quote + core + coreRest && AppOverride() == quote + app + appRest;
    assert ContentTypes(count) == (front + quote) + core + (coreRest + AppOverride() + back);
    assert ContentTypes(count) == (front + CoreOverride() + quote) + app + (appRest + back);
    MentionsMiddle(front + quote, core, coreRest + AppOverride() + back);
    MentionsMiddle(front + CoreOverride() + quote, app, appRest + back);
  }

  /** The overrides of the tables, one pair after the other. */
  lemma {:induction false} OverridesOfTable(first: nat, count: nat, i: nat)
    requires first <= i < first + count
    ensures exists a, b :: TableOverrides(first, count) ==
                           a + Override("/xl/worksheets/sheet" + Decimal(i) + ".xml",
                                        "application/vnd.openxmlformats-officedocument.spreadsheetml.worksheet+xml")
                           + Override("/xl/tables/table" + Decimal(i) + ".xml",
                                      "application/vnd.openxmlformats-officedocument.spreadsheetml.table+xml") + b
    decreases count
  {
    hide Override, Decimal;
    var sheet := Override("/xl/worksheets/sheet" + Decimal(first) + ".xml",
                          "application/vnd.openxmlformats-officedocument.spreadsheetml.worksheet+xml");
    var table := Override("/xl/tables/table" + Decimal(first) + ".xml",
                          "application/vnd.openxmlformats-officedocument.spreadsheetml.table+xml");
    var rest := TableOverrides(first + 1, count - 1);
    assert TableOverrides(first, count) == sheet + table + rest;
    if i == first {
      assert sheet + table + rest == "" + sheet + table + rest;
    } else {
      OverridesOfTable(first + 1, count - 1, i);
      var sheet' := Override("/xl/worksheets/sheet" + Decimal(i) + ".xml",
                             "application/vnd.openxmlformats-officedocument.spreadsheetml.worksheet+xml");
      var table' := Override("/xl/tables/table" + Decimal(i) + ".xml",
                             "application/vnd.openxmlformats-officedocument.spreadsheetml.table+xml");
      var a, b :| rest == a + sheet' + table' + b;
      assert sheet + table + rest == (sheet + table + a) + sheet' + table' + b;
    }
  }

  /** The content-types part declares the worksheet and the table of every number, next to each other. */
  lemma {:induction false} TypesDeclareTables(count: nat, i: nat)
    requires 1 <= i <= count
    ensures Mentions(ContentTypes(count),
                     Override("/xl/worksheets/sheet" + Decimal(i) + ".xml",
                              "application/vnd.openxmlformats-officedocument.spreadsheetml.worksheet+xml")
                     + Override("/xl/tables/table" + Decimal(i) + ".xml",
                                "application/vnd.openxmlformats-officedocument.spreadsheetml.table+xml"))
  {
    hide TypesOpening, MainOverrides, CoreOverride, AppOverride, TableOverrides, Mentions, Override, Decimal;
    OverridesOfTable(1, count, i);
    var sheet := Override("/xl/worksheets/sheet" + Decimal(i) + ".xml",
                          "application/vnd.openxmlformats-officedocument.spreadsheetml.worksheet+xml");
    var table := Override("/xl/tables/table" + Decimal(i) + ".xml",
                          "application/vnd.openxmlformats-officedocument.spreadsheetml.table+xml");
    var a, b :| TableOverrides(1, count) == a + sheet + table + b;
    var front := TypesOpening() + MainOverrides() + CoreOverride() + AppOverride();
    assert ContentTypes(count) == (front + a) + (sheet + table) + (b + "</Types>");
    MentionsMiddle(front + a, sheet + table, b + "</Types>");
  }

  lemma MentionsInside(a: string, text: string, b: string, word: string)
    requires Mentions(text, word)
    ensures Mentions(a + text + b, word)
  {
    var k :| 0 <= k <= |text| && OccursAt(text, k, word);
    assert (a + text + b)[|a| + k..|a| + k + |word|] == text[k..k + |word|];
    assert OccursAt(a + text + b, |a| + k, word);
  }

  lemma {:induction false} MainDeclared()
    ensures Mentions(MainOverrides(), Override("/xl/workbook.xml",
        "application/vnd.openxmlformats-officedocument.spreadsheetml.sheet.main+xml"))
    ensures Mentions(MainOverrides(), Override("/xl/styles.xml",
        "application/vnd.openxmlformats-officedocument.spreadsheetml.styles+xml"))
  {
    hide Mentions, Override;
    var book := Override("/xl/workbook.xml",
                         "application/vnd.openxmlformats-officedocument.spreadsheetml.sheet.main+xml");
    var styles := Override("/xl/styles.xml",
                           "application/vnd.openxmlformats-officedocument.spreadsheetml.styles+xml");
    MentionsMiddle("", book, styles);
    MentionsMiddle(book, styles, "");
    assert MainOverrides() == "" + book + styles == book + styles + "";
  }

  lemma {:induction false} DefaultsDeclared()
    ensures "<?xml version=\"1.0\" encoding=\"UTF-8\" standalone=\"yes\"?>" <= TypesOpening()
    ensures Mentions(TypesOpening(), "<Default Extension=\"xml\" ContentType=\"application/xml\"/>")
    ensures Mentions(TypesOpening(), "<Default Extension=\"rels\" "
                     + "ContentType=\"application/vnd.openxmlformats-package.relationships+xml\"/>")
  {
    hide Mentions;
    var head := "<?xml version=\"1.0\" encoding=\"UTF-8\" standalone=\"yes\"?>";
    var types := "<Types xmlns=\"http://schemas.openxmlformats.org/package/2006/content-types\">";
    var rels := "<Default Extension=\"rels\" "
                + "ContentType=\"application/vnd.openxmlformats-package.relationships+xml\"/>";
    var xml := "<Default Extension=\"xml\" ContentType=\"application/xml\"/>";
    FourPieces(head, types, rels, xml);
    MentionsMiddle(head + types, rels, xml);
    MentionsMiddle(head + types + rels, xml, "");
  }

  lemma FourPieces(a: string, b: string, c: string, d: string)
    ensures a + b + c + d == (a + b) + c + d == (a + b + c) + d + "" && a <= a + b + c + d
  {
  }

  /** It also declares the workbook and the styles, and the two default extensions. */
  lemma {:induction false} TypesDeclareMain(count: nat)
    ensures "<?xml version=\"1.0\" encoding=\"UTF-8\" standalone=\"yes\"?>" <= ContentTypes(count)
    ensures forall word :: Mentions(TypesOpening(), word) || Mentions(MainOverrides(), word) ==>
                             Mentions(ContentTypes(count), word)
  {
    hide CoreOverride, AppOverride, TableOverrides, Mentions, Override, TypesOpening, MainOverrides;
    DefaultsDeclared();
    var back := CoreOverride() + AppOverride() + (TableOverrides(1, count) + "</Types>");
    assert ContentTypes(count) == "" + TypesOpening() + (MainOverrides() + back);
    assert ContentTypes(count) == TypesOpening() + MainOverrides() + back;
    forall word | Mentions(TypesOpening(), word) || Mentions(MainOverrides(), word)
      ensures Mentions(ContentTypes(count), word)
    {
      if Mentions(TypesOpening(), word) {
        MentionsInside("", TypesOpening(), MainOverrides() + back, word);
      } else {
        MentionsInside(TypesOpening(), MainOverrides(), back, word);
      }
    }
  }

  /** A name that is not stored reads as the empty text, any other as the text stored last under it. */
  lemma {:induction false} TextOfExactly(parts: seq<Part>, name: string)
    ensures name !in PartNames(parts) ==> TextOf(parts, name) == ""
    ensures forall k :: 0 <= k < |parts| && parts[k].name == name
                        && (forall j :: k < j < |parts| ==> parts[j].name != name) ==>
                          TextOf(parts, name) == parts[k].text
  {
    if parts != [] {
      var front, last := parts[..|parts| - 1], parts[|parts| - 1];
      assert parts == front + [last];
      TextOfExactly(front, name);
      assert last in parts;
      forall k | 0 <= k < |parts| && parts[k].name == name && (forall j :: k < j < |parts| ==> parts[j].name != name)
        ensures TextOf(parts, name) == parts[k].text
      {
        if k < |front| {
          assert parts[|front|].name != name && front[k] == parts[k];
        }
      }
    }
  }

  lemma {:induction false} TextOfAppend(parts: seq<Part>, p: Part, name: string)
    ensures TextOf(parts + [p], name) == if p.name == name then p.text else TextOf(parts, name)
  {
    assert (parts + [p])[..|parts|] == parts;
  }

  lemma {:induction false} TextBehind(front: seq<Part>, back: seq<Part>, name: string)
    requires forall k :: 0 <= k < |back| ==> back[k].name != name
    ensures TextOf(front + back, name) == TextOf(front, name)
  {
    if back == [] {
      assert front + back == front;
    } else {
      var last := back[|back| - 1];
      TextBehind(front, back[..|back| - 1], name);
      TextOfAppend(front + back[..|back| - 1], last, name);
      assert front + back == front + back[..|back| - 1] + [last];
    }
  }

  lemma {:induction false} TypesOfPackage(tables: seq<Table>, other: string -> string)
    ensures TextOf(GenerateWorkbook(tables, other), CONTENT_TYPES) == other(CONTENT_TYPES)
  {
    hide AllTableParts, TextOf;
    var front, fixed := AllTableParts(1, tables, other), FixedParts(other);
    assert forall k :: 0 < k < |fixed| ==> fixed[k].name[0] != '[';
    TextBehind(front + [fixed[0]], fixed[1..], CONTENT_TYPES);
    TextOfAppend(front, fixed[0], CONTENT_TYPES);
    assert front + fixed == front + [fixed[0]] + fixed[1..];
  }

  lemma {:induction false} PartsOfPackage(tables: seq<Table>, other: string -> string)
    ensures forall part :: part in REQUIRED_PARTS ==> part in PartNames(GenerateWorkbook(tables, other))
  {
    hide AllTableParts;
    var parts, fixed := GenerateWorkbook(tables, other), FixedParts(other);
    assert forall k :: 0 <= k < |fixed| ==> fixed[k] in parts;
    assert fixed[0].name == REQUIRED_PARTS[0] && fixed[1].name == REQUIRED_PARTS[1]
        && fixed[4].name == REQUIRED_PARTS[2];
    assert fixed[2].name == REQUIRED_PARTS[3] && fixed[3].name == REQUIRED_PARTS[4];
  }

  /** A generated package is accepted exactly when one of its tables is the demand table with all its columns. */
  lemma {:induction false} GeneratedAcceptedExactly(tables: seq<Table>, other: string -> string, word: char -> bool)
    requires !word(' ') && !word('"') && DeclaresProperties(other(CONTENT_TYPES))
    requires forall k :: 0 <= k < |tables| ==> Printable(tables[k], word)
    requires forall j, k :: 0 <= j < k < |tables| ==> tables[j].name != tables[k].name
    ensures Acceptable(GenerateWorkbook(tables, other), word) <==>
            exists k :: 0 <= k < |tables| && tables[k].name == TABLE && HasColumns(tables[k].headers)
  {
    hide IndexFrom, GenerateWorkbook, Mentions, TextOf, Printable, HasColumns;
    TypesOfPackage(tables, other);
    PartsOfPackage(tables, other);
    WorkbookRoundTrip(tables, other, word);
    var parts := GenerateWorkbook(tables, other);
    var read := IndexFrom(map[], parts, word);
    assert forall part :: part in DECLARED_PARTS ==> Declares(parts, part);
    assert Acceptable(parts, word) <==> TABLE in read && HasColumns(read[TABLE]);
    if TABLE in read {
      var k :| 0 <= k < |tables| && tables[k].name == TABLE;
      assert read[TABLE] == tables[k].headers;
    }
  }

  predicate PlainChar(c: char) { c != '"' && c != '&' && c != '<' && c != '>' && c != '=' }

  predicate PlainHeader(s: string) {
    s != "" && forall k :: 0 <= k < |s| ==> PlainChar(s[k])
  }

  lemma FirstColumnsPlain()
    ensures forall k :: 0 <= k < 8 ==> PlainHeader(COLUMNS[k])
  {
    assert PlainHeader(COLUMNS[0]) && PlainHeader(COLUMNS[1]) && PlainHeader(COLUMNS[2]) && PlainHeader(COLUMNS[3]);
    assert PlainHeader(COLUMNS[4]) && PlainHeader(COLUMNS[5]) && PlainHeader(COLUMNS[6]) && PlainHeader(COLUMNS[7]);
  }

  lemma LastColumnsPlain()
    ensures forall k :: 8 <= k < 16 ==> PlainHeader(COLUMNS[k])
  {
    assert PlainHeader(COLUMNS[8]) && PlainHeader(COLUMNS[9]) && PlainHeader(COLUMNS[10]) && PlainHeader(COLUMNS[11]);
    assert PlainHeader(COLUMNS[12]) && PlainHeader(COLUMNS[13]) && PlainHeader(COLUMNS[14]) && PlainHeader(COLUMNS[15]);
  }

  lemma PlainIsPrintable(s: string, word: char -> bool)
    requires PlainHeader(s)
    ensures '"' !in s && Unescaped(s) && !EndsInName(s, word)
  {
    assert PlainChar(s[|s| - 1]);
  }

  lemma TableNameGood()
    ensures GoodName(TABLE) && '<' !in TABLE
  {
    assert |TABLE| == 10;
  }

  lemma {:induction false} CanonicalIsPrintable(word: char -> bool)
    ensures Printable(Table(SHEET, TABLE, COLUMNS), word)
  {
    hide PlainHeader, Unescaped, EndsInName, GoodName;
    TableNameGood();
    FirstColumnsPlain();
    LastColumnsPlain();
    forall k | 0 <= k < |COLUMNS|
      ensures '"' !in COLUMNS[k] && Unescaped(COLUMNS[k]) && !EndsInName(COLUMNS[k], word)
    {
      PlainIsPrintable(COLUMNS[k], word);
    }
  }

  /** The canonical workbook is accepted by its own check, and read back with its columns in order. */
  lemma {:induction false} CanonicalWorkbookAccepted(other: string -> string, word: char -> bool)
    requires !word(' ') && !word('"') && other(CONTENT_TYPES) == ContentTypes(1)
    ensures var parts := GenerateWorkbook([Table(SHEET, TABLE, COLUMNS)], other);
            && Acceptable(parts, word)
            && TABLE in IndexFrom(map[], parts, word) && IndexFrom(map[], parts, word)[TABLE] == COLUMNS
  {
    hide IndexFrom, GenerateWorkbook, Acceptable, ContentTypes, Printable;
    var canonical := [Table(SHEET, TABLE, COLUMNS)];
    TypesDeclareParts(1);
    CanonicalIsPrintable(word);
    assert canonical[0] == Table(SHEET, TABLE, COLUMNS) && HasColumns(COLUMNS);
    GeneratedAcceptedExactly(canonical, other, word);
    WorkbookRoundTrip(canonical, other, word);
  }
}
