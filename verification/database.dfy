/**
  The capital database's configuration loader.

  A configuration file is a sequence of lines. Each line has its trailing
  whitespace stripped and is split on `,`; a line whose first field contains
  `#` anywhere is a comment and is skipped. Every other line is stored under the
  next integer id, starting from 0. The database keeps one such dictionary per
  kind of capital, and each getter looks an id up in its dictionary.
 */
module ConfigDatabase {

  /** The characters Python's `str.isspace` accepts, which `str.rstrip()` removes. */
  predicate IsWhitespace(c: char) {
    c == ' ' || c == '\t' || c == '\n' || c == '\r' || c == '\U{000B}' || c == '\U{000C}'
    || ('\U{001C}' <= c <= '\U{001F}') || c == '\U{0085}' || c == '\U{00A0}' || c == '\U{1680}'
    || ('\U{2000}' <= c <= '\U{200A}') || c == '\U{2028}' || c == '\U{2029}' || c == '\U{202F}'
    || c == '\U{205F}' || c == '\U{3000}'
  }

  /** `str.rstrip()`: the longest prefix that does not end in whitespace, so
      exactly a run of whitespace is dropped from the end. */
  function RStrip(s: string): (r: string)
    ensures |r| <= |s| && r == s[..|r|]
    ensures forall i :: |r| <= i < |s| ==> IsWhitespace(s[i])
    ensures r == [] || !IsWhitespace(r[|r| - 1])
  {
    if s == [] || !IsWhitespace(s[|s| - 1]) then s else RStrip(s[..|s| - 1])
  }

  /** Stripping twice strips nothing more. */
  lemma RStripIdempotent(s: string)
    ensures RStrip(RStrip(s)) == RStrip(s)
  {
  }

  /** Stripping a line made only of whitespace leaves the empty string. */
  lemma {:induction false} RStripBlank(s: string)
    requires forall i :: 0 <= i < |s| ==> IsWhitespace(s[i])
    ensures RStrip(s) == ""
    decreases |s|
  {
    if s != [] {
      RStripBlank(s[..|s| - 1]);
    }
  }

  /** Fields joined back together with `,` between them. */
  function Join(fields: seq<string>): string
    requires |fields| >= 1
  {
    if |fields| == 1 then fields[0] else fields[0] + "," + Join(fields[1..])
  }

  /** `str.split(",")`: the comma-free pieces between the commas, at least one. */
  function Split(s: string): (fields: seq<string>)
    ensures |fields| >= 1
    ensures forall i :: 0 <= i < |fields| ==> ',' !in fields[i]
    decreases |s|
  {
    if s == [] then
      [""]
    else
      var rest := Split(s[1..]);
      if s[0] == ',' then [""] + rest else [[s[0]] + rest[0]] + rest[1..]
  }

  /** Joining the fields with `,` gives back the line. */
  lemma {:induction false} JoinSplit(s: string)
    ensures Join(Split(s)) == s
    decreases |s|
  {
    if s != [] {
      var rest := Split(s[1..]);
      JoinSplit(s[1..]);
      if s[0] == ',' {
        assert Split(s) == [""] + rest;
        assert s == "" + "," + Join(rest);
      } else {
        var fields := [[s[0]] + rest[0]] + rest[1..];
        assert Split(s) == fields;
        assert fields[1..] == rest[1..];
        if |rest| == 1 {
          assert Join(fields) == [s[0]] + rest[0];
        } else {
          assert Join(fields) == [s[0]] + (rest[0] + "," + Join(rest[1..]));
        }
      }
    }
  }

  /** The first field is the line up to its first comma. */
  lemma FirstFieldUpToComma(s: string)
    ensures |Split(s)[0]| <= |s|
    ensures Split(s)[0] == s[..|Split(s)[0]|]
    ensures |Split(s)[0]| < |s| ==> s[|Split(s)[0]|] == ','
  {
    JoinSplit(s);
    FirstFieldIsPrefix(Split(s));
  }

  /** Splitting comma-free fields joined with `,` gives the fields back. */
  lemma {:induction false} SplitJoin(fields: seq<string>)
    requires |fields| >= 1
    requires forall i :: 0 <= i < |fields| ==> ',' !in fields[i]
    ensures Split(Join(fields)) == fields
    decreases |fields|
  {
    var s := Join(fields);
    var r := Split(s);
    JoinSplit(s);
    if |fields| == 1 {
      SplitUnique(s, r, fields);
    } else {
      SplitJoin(fields[1..]);
      SplitUnique(s, r, fields);
    }
  }

  /** Two comma-free splittings of the same line are the same. */
  lemma {:induction false} SplitUnique(s: string, f: seq<string>, g: seq<string>)
    requires |f| >= 1 && |g| >= 1
    requires forall i :: 0 <= i < |f| ==> ',' !in f[i]
    requires forall i :: 0 <= i < |g| ==> ',' !in g[i]
    requires Join(f) == s && Join(g) == s
    ensures f == g
    decreases |f|
  {
    FirstFieldIsPrefix(f);
    FirstFieldIsPrefix(g);
    if |f[0]| < |g[0]| {
      assert false;
    } else if |g[0]| < |f[0]| {
      assert false;
    }
    assert f[0] == g[0];
    if |f| == 1 && |g| > 1 {
      assert false;
    } else if |g| == 1 && |f| > 1 {
      assert false;
    } else if |f| > 1 {
      assert Join(f[1..]) == s[|f[0]| + 1..];
      assert Join(g[1..]) == s[|g[0]| + 1..];
      SplitUnique(s[|f[0]| + 1..], f[1..], g[1..]);
      assert f == [f[0]] + f[1..];
      assert g == [g[0]] + g[1..];
    }
  }

  /** The joined line starts with the first field, followed by a comma when
      more fields follow. */
  lemma FirstFieldIsPrefix(f: seq<string>)
    requires |f| >= 1
    ensures |Join(f)| >= |f[0]| && Join(f)[..|f[0]|] == f[0]
    ensures |f| == 1 ==> Join(f) == f[0]
    ensures |f| > 1 ==> |Join(f)| > |f[0]| && Join(f)[|f[0]|] == ',' && Join(f)[|f[0]| + 1..] == Join(f[1..])
  {
    if |f| > 1 {
      assert Join(f) == f[0] + "," + Join(f[1..]);
      assert Join(f) == f[0] + ("," + Join(f[1..]));
    }
  }

  /** A configuration line after stripping and splitting: the stored field list. */
  function Entry(line: string): seq<string> {
    Split(RStrip(line))
  }

  /** The comment test: the first field contains `#`. */
  predicate IsComment(line: string) {
    '#' in Entry(line)[0]
  }

  /** `#` occurs somewhere before the first comma of `s`. */
  predicate HashBeforeComma(s: string) {
    exists i :: 0 <= i < |s| && s[i] == '#' && ',' !in s[..i]
  }

  /** A line is a comment exactly when `#` occurs in the stripped line before any
      comma, at any position and not only the first. */
  lemma CommentIffHashBeforeComma(line: string)
    ensures IsComment(line) <==> HashBeforeComma(RStrip(line))
  {
    var s := RStrip(line);
    var first := Entry(line)[0];
    FirstFieldUpToComma(s);
    if IsComment(line) {
      var i :| 0 <= i < |first| && first[i] == '#';
      assert s[..i] == first[..i];
      assert 0 <= i < |s| && s[i] == '#' && ',' !in s[..i];
    }
    forall i | 0 <= i < |s| && s[i] == '#' && ',' !in s[..i]
      ensures IsComment(line)
    {
      if |first| < i {
        assert false;
      }
      assert first[i] == '#';
    }
  }

  /** A `#` at the start of the first field makes a comment. */
  lemma CommentAtStart()
    ensures IsComment("#id,name")
  {
    var s := "#id,name";
    assert RStrip(s) == s;
    CommentIffHashBeforeComma(s);
    assert s[0] == '#' && s[..0] == "";
  }

  /** A `#` inside the first field, not at its start, also makes a comment. */
  lemma CommentInsideFirstField()
    ensures IsComment("T#2,100")
  {
    var s := "T#2,100";
    assert RStrip(s) == s;
    CommentIffHashBeforeComma(s);
    assert s[1] == '#' && s[..1] == "T";
  }

  /** A `#` in a later field does not make a comment. */
  lemma HashInLaterFieldKept()
    ensures !IsComment("T2,#100")
  {
    var s := "T2,#100";
    assert RStrip(s) == s;
    CommentIffHashBeforeComma(s);
    forall i | 0 <= i < |s| && s[i] == '#'
      ensures ',' in s[..i]
    {
      assert s[..i][2] == ',';
    }
  }

  /** A blank line (empty, or only whitespace) is no comment and is stored as the
      single empty field. */
  lemma BlankLineEntry(line: string)
    requires forall i :: 0 <= i < |line| ==> IsWhitespace(line[i])
    ensures Entry(line) == [""]
    ensures !IsComment(line)
  {
    RStripBlank(line);
    assert Split("") == [""];
  }

  /** The stored field lists are non-empty, comma-free, and join back to the
      stripped line. */
  lemma EntryJoinsBack(line: string)
    ensures |Entry(line)| >= 1
    ensures forall i :: 0 <= i < |Entry(line)| ==> ',' !in Entry(line)[i]
    ensures Join(Entry(line)) == RStrip(line)
  {
    JoinSplit(RStrip(line));
  }

  /** The elements `skip` does not reject, in their original order. */
  function Keep<T>(xs: seq<T>, skip: T -> bool): (kept: seq<T>)
    ensures |kept| <= |xs|
  {
    if xs == [] then []
    else
      var last := xs[|xs| - 1];
      Keep(xs[..|xs| - 1], skip) + (if skip(last) then [] else [last])
  }

  /** Nothing `skip` rejects is kept. */
  lemma {:induction false} KeepRejectsSkipped<T>(xs: seq<T>, skip: T -> bool)
    ensures forall k :: 0 <= k < |Keep(xs, skip)| ==> !skip(Keep(xs, skip)[k])
    decreases |xs|
  {
    if xs != [] {
      KeepRejectsSkipped(xs[..|xs| - 1], skip);
    }
  }

  /** Reading one more element keeps it exactly when it is not skipped. */
  lemma KeepStep<T>(xs: seq<T>, skip: T -> bool, n: nat)
    requires n < |xs|
    ensures Keep(xs[..n + 1], skip) == Keep(xs[..n], skip) + (if skip(xs[n]) then [] else [xs[n]])
  {
    assert xs[..n + 1][..n] == xs[..n];
  }

  /** The positions in `xs` of the elements `Keep` keeps. */
  function KeptPositions<T>(xs: seq<T>, skip: T -> bool): seq<int> {
    if xs == [] then []
    else
      var n := |xs| - 1;
      KeptPositions(xs[..n], skip) + (if skip(xs[n]) then [] else [n])
  }

  /** The `k`-th kept position holds the `k`-th kept element. */
  lemma {:induction false} KeptPositionsMatch<T>(xs: seq<T>, skip: T -> bool)
    ensures |KeptPositions(xs, skip)| == |Keep(xs, skip)|
    ensures forall k :: 0 <= k < |KeptPositions(xs, skip)| ==>
      0 <= KeptPositions(xs, skip)[k] < |xs| && xs[KeptPositions(xs, skip)[k]] == Keep(xs, skip)[k]
    decreases |xs|
  {
    if xs != [] {
      var n := |xs| - 1;
      var prefix := xs[..n];
      KeptPositionsMatch(prefix, skip);
      var earlier := KeptPositions(prefix, skip);
      var pos := KeptPositions(xs, skip);
      assert Keep(xs, skip) == Keep(prefix, skip) + (if skip(xs[n]) then [] else [xs[n]]);
      forall k | 0 <= k < |earlier|
        ensures pos[k] == earlier[k] && xs[earlier[k]] == Keep(xs, skip)[k]
      {
        assert xs[earlier[k]] == prefix[earlier[k]];
      }
    }
  }

  /** Kept positions strictly increase: ids follow input order. */
  lemma {:induction false} KeptPositionsIncreasing<T>(xs: seq<T>, skip: T -> bool)
    ensures forall k :: 0 <= k < |KeptPositions(xs, skip)| ==> 0 <= KeptPositions(xs, skip)[k] < |xs|
    ensures forall j, k :: 0 <= j < k < |KeptPositions(xs, skip)| ==> KeptPositions(xs, skip)[j] < KeptPositions(xs, skip)[k]
    decreases |xs|
  {
    if xs != [] {
      var n := |xs| - 1;
      KeptPositionsIncreasing(xs[..n], skip);
    }
  }

  /** Every element that is not skipped is kept: ids leave no line out. */
  lemma {:induction false} KeptPositionsComplete<T>(xs: seq<T>, skip: T -> bool)
    ensures forall i :: 0 <= i < |xs| && !skip(xs[i]) ==> i in KeptPositions(xs, skip)
    decreases |xs|
  {
    if xs != [] {
      var n := |xs| - 1;
      var prefix := xs[..n];
      KeptPositionsComplete(prefix, skip);
      forall i | 0 <= i < n && !skip(xs[i])
        ensures i in KeptPositions(xs, skip)
      {
        assert xs[i] == prefix[i];
      }
    }
  }

  /** The lines that are not comments, in input order. */
  function Kept(lines: seq<string>): seq<string> {
    Keep(lines, IsComment)
  }

  /** One pass of `loadDict`'s loop body: strip, split, test the first field
      for `#`, and copy the fields into a fresh list. */
  method ParseLine(line: string) returns (comment: bool, entry: seq<string>)
    ensures comment <==> IsComment(line)
    ensures entry == Entry(line)
  {
    var stripped := RStrip(line);
    var fields := Split(stripped);
    comment := '#' in fields[0];
    entry := [];
    for f := 0 to |fields|
      invariant entry == fields[..f]
    {
      entry := entry + [fields[f]];
    }
  }

  /** `loadDict` over the lines of one file. */
  method LoadDict(lines: seq<string>) returns (dict: map<int, seq<string>>)
    ensures forall k :: k in dict <==> 0 <= k < |Kept(lines)|
    ensures forall k :: 0 <= k < |Kept(lines)| ==> dict[k] == Entry(Kept(lines)[k])
  {
    dict := map[];
    var id := 0;
    var n := 0;
    while n < |lines|
      invariant 0 <= n <= |lines|
      invariant id == |Kept(lines[..n])|
      invariant Numbered(dict, Kept(lines[..n]))
    {
      KeepStep(lines, IsComment, n);
      ghost var before := Kept(lines[..n]);
      var comment, entry := ParseLine(lines[n]);
      if !comment {
        assert Kept(lines[..n + 1]) == before + [lines[n]];
        NumberedExtend(dict, before, lines[n]);
        dict := dict[id := entry];
        id := id + 1;
      } else {
        assert Kept(lines[..n + 1]) == before;
      }
      n := n + 1;
    }
    assert lines[..|lines|] == lines;
  }

  /** `dict` numbers the lines of `kept` from 0, holding each one's fields. */
  ghost predicate Numbered(dict: map<int, seq<string>>, kept: seq<string>) {
    && (forall k :: k in dict <==> 0 <= k < |kept|)
    && forall k :: 0 <= k < |kept| ==> dict[k] == Entry(kept[k])
  }

  /** Storing one more line under the next id keeps the numbering. */
  lemma NumberedExtend(dict: map<int, seq<string>>, kept: seq<string>, line: string)
    requires Numbered(dict, kept)
    ensures Numbered(dict[|kept| := Entry(line)], kept + [line])
  {
  }

  /** The capital a getter returns: the kind's constructor applied to the stored
      field list. */
  datatype Capital =
    | Tower(spec: seq<string>)
    | Radio(spec: seq<string>)
    | Wired(spec: seq<string>)
    | Router(spec: seq<string>)
    | Building(spec: seq<string>)

  /** The five dictionaries, one per kind of capital. */
  datatype CapitalDatabase = CapitalDatabase(
    towers: map<int, seq<string>>,
    radios: map<int, seq<string>>,
    wired: map<int, seq<string>>,
    routers: map<int, seq<string>>,
    buildings: map<int, seq<string>>)

  /** The database's dictionaries, each loaded from its file's lines. */
  method LoadDatabase(towers: seq<string>, radios: seq<string>, wired: seq<string>,
                      routers: seq<string>, buildings: seq<string>) returns (db: CapitalDatabase)
    ensures Numbered(db.towers, Kept(towers)) && Numbered(db.radios, Kept(radios))
    ensures Numbered(db.wired, Kept(wired)) && Numbered(db.routers, Kept(routers))
    ensures Numbered(db.buildings, Kept(buildings))
  {
    var t := LoadDict(towers);
    var r := LoadDict(radios);
    var w := LoadDict(wired);
    var o := LoadDict(routers);
    var b := LoadDict(buildings);
    db := CapitalDatabase(t, r, w, o, b);
  }

  /** `GetTower`: an id that is not a key raises `KeyError`. */
  function GetTower(db: CapitalDatabase, id: int): (c: Capital)
    requires id in db.towers
    ensures c.Tower? && c.spec == db.towers[id]
  {
    Tower(db.towers[id])
  }

  /** `GetRadio`: an id that is not a key raises `KeyError`. */
  function GetRadio(db: CapitalDatabase, id: int): (c: Capital)
    requires id in db.radios
    ensures c.Radio? && c.spec == db.radios[id]
  {
    Radio(db.radios[id])
  }

  /** `GetWired`: an id that is not a key raises `KeyError`. */
  function GetWired(db: CapitalDatabase, id: int): (c: Capital)
    requires id in db.wired
    ensures c.Wired? && c.spec == db.wired[id]
  {
    Wired(db.wired[id])
  }

  /** `GetRouter`: an id that is not a key raises `KeyError`. */
  function GetRouter(db: CapitalDatabase, id: int): (c: Capital)
    requires id in db.routers
    ensures c.Router? && c.spec == db.routers[id]
  {
    Router(db.routers[id])
  }

  /** `GetBuilding`: an id that is not a key raises `KeyError`. */
  function GetBuilding(db: CapitalDatabase, id: int): (c: Capital)
    requires id in db.buildings
    ensures c.Building? && c.spec == db.buildings[id]
  {
    Building(db.buildings[id])
  }

  /** In a dictionary loaded from a file, an id can be looked up exactly when it
      numbers one of the kept lines, and the entry found is that line's fields:
      non-empty, and joining back to the stripped line. */
  lemma LookupLoaded(dict: map<int, seq<string>>, lines: seq<string>, id: int)
    requires Numbered(dict, Kept(lines))
    ensures id in dict <==> 0 <= id < |Kept(lines)|
    ensures id in dict ==> |dict[id]| >= 1 && Join(dict[id]) == RStrip(Kept(lines)[id])
    ensures id in dict ==> exists i :: 0 <= i < |lines| && dict[id] == Entry(lines[i])
  {
    if id in dict {
      EntryJoinsBack(Kept(lines)[id]);
      KeptPositionsMatch(lines, IsComment);
      var pos := KeptPositions(lines, IsComment);
      assert lines[pos[id]] == Kept(lines)[id];
    }
  }
}
