/** The command text the client sends: the row format shared by `insert`,
    `add` and the rows of `bulkadd`, the other formatted commands, and parsers
    that read the row format back, which show that the text keeps every field
    and both flags recoverable. */
module Commands {
  import opened Sequences

  datatype Option<T> = None | Some(value: T)

  /** One tick as the caller passes it. The numeric fields are kept as the
      text Python's `{}` formatting renders for them. */
  datatype Update = Update(ts: string, seqNo: string, isTrade: bool, isBid: bool,
                           price: string, size: string)

  /** A flag is written as 't' when set and 'f' otherwise. */
  function Flag(b: bool): string
  {
    if b then "t" else "f"
  }

  /** "{}, {}, {} ,{}, {}, {};" filled with the update's fields; note the space
      before the comma between the two flags. */
  function RowText(u: Update): string
  {
    u.ts + ", " + u.seqNo + ", " + Flag(u.isTrade) + " ," + Flag(u.isBid) + ", "
      + u.price + ", " + u.size + ";"
  }

  function InsertText(u: Update, dbname: string): string
  {
    "INSERT " + RowText(u) + " INTO " + dbname
  }

  function AddText(u: Update): string
  {
    "ADD " + RowText(u)
  }

  function GetText(n: string): string { "GET " + n + " AS JSON" }

  function CreateText(dbname: string): string { "CREATE " + dbname }

  function UseText(dbname: string): string { "USE " + dbname }

  function SubscribeText(dbname: string): string { "SUBSCRIBE " + dbname }

  function RangeText(start: string, finish: string): string
  {
    "GET ALL FROM " + start + " TO " + finish + " AS CSV"
  }

  /** The row commands of a bulk insert, one per update, in input order. */
  function RowCommands(updates: seq<Update>): (cmds: seq<string>)
    ensures |cmds| == |updates|
    ensures forall i :: 0 <= i < |updates| ==> cmds[i] == RowText(updates[i])
  {
    if updates == [] then []
    else RowCommands(updates[..|updates| - 1]) + [RowText(updates[|updates| - 1])]
  }

  lemma RowCommandsSnoc(updates: seq<Update>, i: nat)
    requires i < |updates|
    ensures RowCommands(updates[..i + 1]) == RowCommands(updates[..i]) + [RowText(updates[i])]
  {
    assert updates[..i + 1][..i] == updates[..i];
  }

  /** Everything `bulkadd` sends: the opening marker, the rows, the closing marker. */
  function BulkAddCommands(updates: seq<Update>): (cmds: seq<string>)
    ensures |cmds| == |updates| + 2
    ensures cmds[0] == "BULKADD" && cmds[|cmds| - 1] == "DDAKLUB"
    ensures forall i :: 0 <= i < |updates| ==> cmds[i + 1] == RowText(updates[i])
  {
    ["BULKADD"] + RowCommands(updates) + ["DDAKLUB"]
  }

  // ---------------------------------------------------------------------------
  // Reading the row format back


  /** The pieces of `s` between occurrences of `c`. */
  function SplitOn(s: string, c: char): (parts: seq<string>)
    ensures |parts| >= 1
    decreases |s|
  {
    if s == [] then [[]]
    else if s[0] == c then [[]] + SplitOn(s[1..], c)
    else
      var rest := SplitOn(s[1..], c);
      [[s[0]] + rest[0]] + rest[1..]
  }

  /** The pieces joined back with `c` between them. */
  function Join(parts: seq<string>, c: char): string
    requires |parts| >= 1
  {
    if |parts| == 1 then parts[0] else parts[0] + ([c] + Join(parts[1..], c))
  }

  lemma {:induction false} SplitOnNoSeparator(a: string, c: char)
    requires c !in a
    ensures SplitOn(a, c) == [a]
    decreases |a|
  {
    if a != [] {
      SplitOnNoSeparator(a[1..], c);
      assert [a[0]] + a[1..] == a;
    }
  }

  lemma {:induction false} SplitOnAppend(a: string, c: char, b: string)
    requires c !in a
    ensures SplitOn(a + ([c] + b), c) == [a] + SplitOn(b, c)
    decreases |a|
  {
    var s := a + ([c] + b);
    if a == [] {
      assert s == [c] + b;
      ConsTail(c, b);
    } else {
      assert s[1..] == a[1..] + ([c] + b);
      SplitOnAppend(a[1..], c, b);
      assert [a[0]] + a[1..] == a;
    }
  }

  /** Joining after an empty first piece starts with the separator. */
  lemma JoinEmptyFirst(rest: seq<string>, c: char)
    requires |rest| >= 1
    ensures Join([[]] + rest, c) == [c] + Join(rest, c)
  {
    ConsTail([], rest);
  }

  /** Joining after a character is put at the front of the first piece puts it
      at the front of the whole. */
  lemma JoinConsFirst(x: char, rest: seq<string>, c: char)
    requires |rest| >= 1
    ensures Join([[x] + rest[0]] + rest[1..], c) == [x] + Join(rest, c)
  {
    var parts := [[x] + rest[0]] + rest[1..];
    if |rest| > 1 {
      assert parts[1..] == rest[1..];
      AppendAssoc([x], rest[0], [c] + Join(rest[1..], c));
    }
  }

  /** Splitting and joining again gives back the text. */
  lemma {:induction false} JoinSplitOn(s: string, c: char)
    ensures Join(SplitOn(s, c), c) == s
    decreases |s|
  {
    if s != [] {
      JoinSplitOn(s[1..], c);
      var rest := SplitOn(s[1..], c);
      if s[0] == c {
        JoinEmptyFirst(rest, c);
      } else {
        JoinConsFirst(s[0], rest, c);
      }
      assert s == [s[0]] + s[1..];
    }
  }

  function ParseFlag(s: string): Option<bool>
  {
    if s == "t" then Some(true) else if s == "f" then Some(false) else None
  }

  /** Reads a row written as "ts, seq, T ,B, price, size;" back into its fields. */
  function ParseRow(s: string): Option<Update>
  {
    var p := SplitOn(s, ',');
    if |p| == 6 && |p[1]| >= 1 && p[1][0] == ' '
       && |p[2]| == 3 && p[2][0] == ' ' && p[2][2] == ' ' && ParseFlag(p[2][1..2]).Some?
       && ParseFlag(p[3]).Some?
       && |p[4]| >= 1 && p[4][0] == ' '
       && |p[5]| >= 2 && p[5][0] == ' ' && p[5][|p[5]| - 1] == ';'
    then Some(Update(p[0], p[1][1..], ParseFlag(p[2][1..2]).value, ParseFlag(p[3]).value,
                     p[4][1..], p[5][1..|p[5]| - 1]))
    else None
  }

  /** Fields as Python renders numbers: no comma and no semicolon. */
  predicate Plain(u: Update)
  {
    ',' !in u.ts && ',' !in u.seqNo && ',' !in u.price && ',' !in u.size
    && ';' !in u.ts && ';' !in u.seqNo && ';' !in u.price && ';' !in u.size
  }

  lemma ParseFlagOfFlag(b: bool)
    ensures ParseFlag(Flag(b)) == Some(b)
  {
  }

  /** Six pieces with `c` between them, nested to the right as `Join` nests them. */
  function Six(p0: string, p1: string, p2: string, p3: string, p4: string, p5: string, c: char): string
  {
    p0 + ([c] + (p1 + ([c] + (p2 + ([c] + (p3 + ([c] + (p4 + ([c] + p5)))))))))
  }

  /** The pieces of a row between its commas. */
  function RowPieces(u: Update): seq<string>
  {
    [u.ts, " " + u.seqNo, " " + Flag(u.isTrade) + " ", Flag(u.isBid), " " + u.price, " " + u.size + ";"]
  }

  lemma RowTextPieces(u: Update)
    ensures RowText(u) == Six(u.ts, " " + u.seqNo, " " + Flag(u.isTrade) + " ", Flag(u.isBid),
                              " " + u.price, " " + u.size + ";", ',')
  {
  }

  /** Six separator-free pieces joined by `c` split back into those pieces. */
  lemma SplitOnSix(p0: string, p1: string, p2: string, p3: string, p4: string, p5: string, c: char)
    requires c !in p0 && c !in p1 && c !in p2 && c !in p3 && c !in p4 && c !in p5
    ensures SplitOn(Six(p0, p1, p2, p3, p4, p5, c), c) == [p0, p1, p2, p3, p4, p5]
  {
    var t4 := p4 + ([c] + p5);
    var t3 := p3 + ([c] + t4);
    var t2 := p2 + ([c] + t3);
    var t1 := p1 + ([c] + t2);
    SplitOnNoSeparator(p5, c);
    SplitOnAppend(p4, c, p5);
    SplitOnAppend(p3, c, t4);
    SplitOnAppend(p2, c, t3);
    SplitOnAppend(p1, c, t2);
    SplitOnAppend(p0, c, t1);
  }

  /** The row text splits at its commas into exactly the six written pieces. */
  lemma RowTextSplit(u: Update)
    requires Plain(u)
    ensures SplitOn(RowText(u), ',') == RowPieces(u)
  {
    RowTextPieces(u);
    SplitOnSix(u.ts, " " + u.seqNo, " " + Flag(u.isTrade) + " ", Flag(u.isBid), " " + u.price,
               " " + u.size + ";", ',');
  }

  /** Every row the client formats from plain fields is read back as that update. */
  lemma ParseRowText(u: Update)
    requires Plain(u)
    ensures ParseRow(RowText(u)) == Some(u)
  {
    RowTextSplit(u);
    var p := RowPieces(u);
    assert p[2][1..2] == Flag(u.isTrade);
    ParseFlagOfFlag(u.isTrade);
    ParseFlagOfFlag(u.isBid);
    assert p[1][1..] == u.seqNo && p[4][1..] == u.price;
    assert p[5][1..|p[5]| - 1] == u.size;
  }

  lemma JoinSix(p: seq<string>, c: char)
    requires |p| == 6
    ensures Join(p, c) == Six(p[0], p[1], p[2], p[3], p[4], p[5], c)
  {
    assert p[5..] == [p[5]];
    assert p[4..][1..] == p[5..];
    var j4 := p[4] + ([c] + p[5]);
    assert Join(p[4..], c) == j4;
    assert p[3..][1..] == p[4..];
    var j3 := p[3] + ([c] + j4);
    assert Join(p[3..], c) == j3;
    assert p[2..][1..] == p[3..];
    var j2 := p[2] + ([c] + j3);
    assert Join(p[2..], c) == j2;
    assert p[1..][1..] == p[2..];
    assert Join(p[1..], c) == p[1] + ([c] + j2);
  }

  /** Conversely, a text the parser accepts is exactly the row of what it parsed. */
  lemma RowTextOfParseRow(s: string)
    requires ParseRow(s).Some?
    ensures RowText(ParseRow(s).value) == s
  {
    var p := SplitOn(s, ',');
    var u := ParseRow(s).value;
    JoinSplitOn(s, ',');
    JoinSix(p, ',');
    assert p[1] == " " + u.seqNo && p[4] == " " + u.price && p[5] == " " + u.size + ";";
    assert p[2] == [' '] + p[2][1..2] + [' '];
    assert p[2] == " " + Flag(u.isTrade) + " " && p[3] == Flag(u.isBid);
    RowTextPieces(u);
  }

  function ParseAdd(s: string): Option<Update>
  {
    if |s| >= 4 && s[..4] == "ADD " then ParseRow(s[4..]) else None
  }

  lemma ParseAddText(u: Update)
    requires Plain(u)
    ensures ParseAdd(AddText(u)) == Some(u)
  {
    assert AddText(u)[4..] == RowText(u);
    ParseRowText(u);
  }

  /** The position of the first `c` in `s`, or |s| when there is none. */
  function IndexOf(s: string, c: char): (i: nat)
    ensures i <= |s|
    ensures forall j :: 0 <= j < i ==> s[j] != c
    ensures i < |s| ==> s[i] == c
  {
    if s == [] then 0 else if s[0] == c then 0 else 1 + IndexOf(s[1..], c)
  }

  /** Reads "INSERT <row>; INTO <dbname>" back: the row ends at the first ';'. */
  function ParseInsert(s: string): Option<(Update, string)>
  {
    var i := IndexOf(s, ';');
    if |s| >= 7 && s[..7] == "INSERT " && 7 <= i < |s| && |s| >= i + 7 && s[i + 1..i + 7] == " INTO "
       && ParseRow(s[7..i + 1]).Some?
    then Some((ParseRow(s[7..i + 1]).value, s[i + 7..]))
    else None
  }

  /** A row is its fields followed by the one ';' it contains. */
  lemma RowTextEnd(u: Update)
    requires Plain(u)
    ensures RowText(u) == RowText(u)[..|RowText(u)| - 1] + ";"
    ensures ';' !in RowText(u)[..|RowText(u)| - 1]
  {
    var fields := u.ts + ", " + u.seqNo + ", " + Flag(u.isTrade) + " ," + Flag(u.isBid) + ", "
      + u.price + ", " + u.size;
    assert RowText(u) == fields + ";";
    assert RowText(u)[..|RowText(u)| - 1] == fields;
  }

  /** The first `c` of `a + b` when `a` holds none lies in `b`. */
  lemma IndexOfAfter(a: string, b: string, c: char)
    requires c !in a && |b| >= 1 && b[0] == c
    ensures IndexOf(a + b, c) == |a|
  {
    assert (a + b)[|a|] == c;
  }

  lemma ParseInsertText(u: Update, dbname: string)
    requires Plain(u)
    ensures ParseInsert(InsertText(u, dbname)) == Some((u, dbname))
  {
    var s := InsertText(u, dbname);
    var row := RowText(u);
    var fields := row[..|row| - 1];
    RowTextEnd(u);
    assert s == ("INSERT " + fields) + (";" + " INTO " + dbname);
    IndexOfAfter("INSERT " + fields, ";" + " INTO " + dbname, ';');
    var i := IndexOf(s, ';');
    assert i + 1 == 7 + |row|;
    SlicesOfFour("INSERT ", row, " INTO ", dbname);
    ParseRowText(u);
  }
}
