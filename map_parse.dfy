/** The symbol-parsing loop of tools/mapPacker.py: each line of `nm --print-size --numeric-sort` output
    that names a symbol appends a record to `symNames`, and a line may first fill in the size of the
    record before it from the distance between the two addresses. */
module MapParse {
  import opened MapText

  /** Sizes inferred from the next address must stay below this (`maxSymbolSize`). */
  const MAX_SYMBOL_SIZE: int := 0xFFFFF

  /** `MapSymbol`: an address, a size, a name, the type character of `nm` and an error character,
      which is NUL or `'S'` when the size could not be inferred. */
  datatype Symbol = Symbol(addr: nat, size: nat, name: string, typ: char, errc: char)
  {
    /** `strlen`, the room the name takes in the name table (`MapSymbol.__init__`). */
    function StrLen(): (n: nat)
      ensures n % 4 == 0 && |name| < n <= |name| + 4
    {
      PaddedLength(|name|)
    }
  }

  /** `(n + 4) & ~3` on a non-negative `n`: clearing the two low bits of `n + 4`. */
  function PaddedLength(n: nat): (r: nat)
    ensures r % 4 == 0 && n < r <= n + 4
    ensures n % 4 == 0 ==> r == n + 4
  {
    (n + 4) - (n + 4) % 4
  }

  /** The padded length is the least multiple of four that leaves room for a NUL after the name. */
  lemma PaddedLengthLeast(n: nat, m: nat)
    requires m % 4 == 0 && n < m
    ensures PaddedLength(n) <= m
  {
  }

  /** The last element of `syms`. */
  function Last(syms: seq<Symbol>): Symbol
    requires |syms| > 0
  {
    syms[|syms| - 1]
  }

  /** The size inference for a new symbol at `addr` (mapPacker.py lines 56-68): the list with the
      previous record's size filled in, and the new record's error character. */
  function Infer(syms: seq<Symbol>, addr: nat): (r: (seq<Symbol>, char))
    ensures |r.0| == |syms| && forall k :: 0 <= k < |syms| - 1 ==> r.0[k] == syms[k]
  {
    if |syms| > 0 && Last(syms).size == 0 && addr > Last(syms).addr then
      var gap := addr - Last(syms).addr;
      if gap < MAX_SYMBOL_SIZE then (syms[|syms| - 1 := Last(syms).(size := gap)], '\0')
      else (syms, 'S')
    else (syms, '\0')
  }

  /** Whether the tokens of a line describe a symbol: at least three of them, and a one-character
      type token before the name. */
  predicate IsSymbolLine(tokens: seq<string>) {
    |tokens| >= 3 && |tokens[|tokens| - 2]| == 1
  }

  /** One turn of the loop over the lines: the list after `line`, or `None` where `int(..., 16)`
      raises and the script stops. */
  function Accept(syms: seq<Symbol>, line: string): (r: Option<seq<Symbol>>)
  {
    var tokens := Split(line);
    if !IsSymbolLine(tokens) then Some(syms)
    else
      match ParseHex(tokens[0])
      case None => None
      case Some(addr) =>
        var (prev, errc) := Infer(syms, addr);
        var size := if |tokens| < 4 then Some(0) else ParseHex(tokens[|tokens| - 3]);
        match size
        case None => None
        case Some(sz) =>
          Some(prev + [Symbol(addr, sz, tokens[|tokens| - 1], tokens[|tokens| - 2][0], errc)])
  }

  /** The list after all of `lines`, or `None` where the script stops. */
  function ParseAll(lines: seq<string>): (r: Option<seq<Symbol>>)
  {
    if |lines| == 0 then Some([])
    else
      match ParseAll(lines[..|lines| - 1])
      case None => None
      case Some(syms) => Accept(syms, lines[|lines| - 1])
  }

  /** A line is recorded exactly when it has three tokens or more and a one-character type token;
      the record takes its name from the last token, its type from the one before and its size from
      the one before that when there are four tokens or more. */
  lemma AcceptedLine(syms: seq<Symbol>, line: string)
    requires Accept(syms, line).Some?
    ensures var tokens := Split(line);
      var r := Accept(syms, line).value;
      if IsSymbolLine(tokens) then
        |r| == |syms| + 1 && Some(Last(r).addr) == ParseHex(tokens[0])
        && Last(r).name == tokens[|tokens| - 1] && [Last(r).typ] == tokens[|tokens| - 2]
        && (if |tokens| < 4 then Last(r).size == 0 else Some(Last(r).size) == ParseHex(tokens[|tokens| - 3]))
      else r == syms
  {
    var tokens := Split(line);
    if IsSymbolLine(tokens) {
      assert tokens[|tokens| - 2] == [tokens[|tokens| - 2][0]];
    }
  }

  /** A symbol line fails only where the address, or the size when present, is not hexadecimal. */
  lemma AcceptFails(syms: seq<Symbol>, line: string)
    ensures var tokens := Split(line);
      Accept(syms, line).None? <==>
        IsSymbolLine(tokens) && (ParseHex(tokens[0]).None? || (|tokens| >= 4 && ParseHex(tokens[|tokens| - 3]).None?))
  {
  }

  /** Size inference: a previous record of size 0 at a lower address gets the gap as its size when it
      is below `MAX_SYMBOL_SIZE`; otherwise it stays and the new record is flagged `'S'`; no other
      record changes. */
  lemma SizeInference(syms: seq<Symbol>, line: string)
    requires Accept(syms, line).Some? && IsSymbolLine(Split(line))
    ensures var r := Accept(syms, line).value;
      var n := |syms|;
      (forall k :: 0 <= k < n - 1 ==> r[k] == syms[k]) &&
      if n > 0 && syms[n - 1].size == 0 && Last(r).addr > syms[n - 1].addr then
        if Last(r).addr - syms[n - 1].addr < MAX_SYMBOL_SIZE then
          r[n - 1] == syms[n - 1].(size := Last(r).addr - syms[n - 1].addr) && Last(r).errc == '\0'
        else r[n - 1] == syms[n - 1] && Last(r).errc == 'S'
      else (n > 0 ==> r[n - 1] == syms[n - 1]) && Last(r).errc == '\0'
  {
    var r := Accept(syms, line).value;
    var n := |syms|;
    var prev := Infer(syms, Last(r).addr).0;
    assert r[..n] == prev;
    forall k | 0 <= k < n
      ensures r[k] == prev[k]
    {
      assert r[k] == r[..n][k];
    }
  }

  /** What the loop keeps of every record: an error character of NUL or `'S'`, where `'S'` says the
      record before has size 0 and lies at least `MAX_SYMBOL_SIZE` below; and a record of size 0
      that is not the last is followed by one at no higher address or too far above. */
  predicate WellFormed(syms: seq<Symbol>) {
    (forall k :: 0 <= k < |syms| ==> IsWord(syms[k].name)) &&
    (forall k :: 0 <= k < |syms| ==>
      syms[k].errc == '\0' ||
      (syms[k].errc == 'S' && k > 0 && syms[k - 1].size == 0 && syms[k].addr - syms[k - 1].addr >= MAX_SYMBOL_SIZE)) &&
    (forall k :: 0 <= k < |syms| - 1 && syms[k].size == 0 ==>
      syms[k + 1].addr <= syms[k].addr || syms[k + 1].addr - syms[k].addr >= MAX_SYMBOL_SIZE)
  }

  lemma AcceptKeepsWellFormed(syms: seq<Symbol>, line: string)
    requires WellFormed(syms) && Accept(syms, line).Some?
    ensures WellFormed(Accept(syms, line).value)
  {
    var tokens := Split(line);
    if IsSymbolLine(tokens) {
      SizeInference(syms, line);
      var r := Accept(syms, line).value;
      var n := |syms|;
      assert |r| == n + 1;
      assert IsWord(Last(r).name) && (Last(r).errc == '\0' || Last(r).errc == 'S');
      if n > 0 {
        assert r[n - 1].addr == syms[n - 1].addr && r[n - 1].name == syms[n - 1].name;
        assert r[n - 1].errc == syms[n - 1].errc;
      }
      assert forall k :: 0 <= k < n + 1 ==> IsWord(r[k].name);
      forall k | 0 <= k < n + 1
        ensures r[k].errc == '\0' ||
          (r[k].errc == 'S' && k > 0 && r[k - 1].size == 0 && r[k].addr - r[k - 1].addr >= MAX_SYMBOL_SIZE)
      {
        if k < n && k > 0 {
          assert r[k - 1] == syms[k - 1];
        }
      }
      forall k | 0 <= k < n && r[k].size == 0
        ensures r[k + 1].addr <= r[k].addr || r[k + 1].addr - r[k].addr >= MAX_SYMBOL_SIZE
      {
        if k < n - 1 {
          assert r[k] == syms[k];
        }
      }
    }
  }

  /** Every record the loop produces is well formed. */
  lemma {:induction false} ParseAllWellFormed(lines: seq<string>)
    requires ParseAll(lines).Some?
    ensures WellFormed(ParseAll(lines).value)
  {
    if |lines| > 0 {
      ParseAllWellFormed(lines[..|lines| - 1]);
      AcceptKeepsWellFormed(ParseAll(lines[..|lines| - 1]).value, lines[|lines| - 1]);
    }
  }

  /** Records whose name, type and error characters fit the ASCII bytes they are written as. */
  predicate AsciiRecords(syms: seq<Symbol>) {
    forall k :: 0 <= k < |syms| ==> IsAscii(syms[k].name) && syms[k].typ as int < 0x80 && syms[k].errc as int < 0x80
  }

  /** The records read from ASCII text are ASCII. */
  lemma {:induction false} ParseAllAscii(lines: seq<string>)
    requires forall k :: 0 <= k < |lines| ==> IsAscii(lines[k])
    requires ParseAll(lines).Some?
    ensures AsciiRecords(ParseAll(lines).value)
  {
    if |lines| > 0 {
      var init := lines[..|lines| - 1];
      ParseAllAscii(init);
      var line := lines[|lines| - 1];
      SplitAscii(line);
      var tokens := Split(line);
      if IsSymbolLine(tokens) {
        SizeInference(ParseAll(init).value, line);
        assert IsAscii(tokens[|tokens| - 2]);
      }
    }
  }

  lemma SplitExample(addr: string, name: string)
    requires IsWord(addr) && IsWord(name)
    ensures Split(addr + " T " + name) == [addr, "T", name]
  {
    var ws := [addr, "T", name];
    SplitJoin(ws);
    assert ws[1..][1..] == [name];
    assert Join(ws[1..]) == "T" + " " + name;
    assert Join(ws) == addr + " " + ("T" + " " + name);
    assert addr + " " + ("T" + " " + name) == addr + " T " + name;
  }

  /** A line `addr T name` without a size column. */
  lemma AcceptShortLine(syms: seq<Symbol>, addr: string, name: string, a: nat)
    requires IsWord(addr) && IsWord(name) && ParseHex(addr) == Some(a)
    ensures Accept(syms, addr + " T " + name) == Some(Infer(syms, a).0 + [Symbol(a, 0, name, 'T', Infer(syms, a).1)])
  {
    SplitExample(addr, name);
    assert Split(addr + " T " + name)[1][0] == 'T';
  }

  lemma FirstLineExample()
    ensures Accept([], "8 T a") == Some([Symbol(8, 0, "a", 'T', '\0')])
  {
    assert ParseHex("8") == Some(8) by {
      assert "8"[..0] == [];
    }
    AcceptShortLine([], "8", "a", 8);
    assert "8" + " T " + "a" == "8 T a";
    assert [] + [Symbol(8, 0, "a", 'T', '\0')] == [Symbol(8, 0, "a", 'T', '\0')];
  }

  lemma InferExample()
    ensures Infer([Symbol(8, 0, "a", 'T', '\0')], 12) == ([Symbol(8, 4, "a", 'T', '\0')], '\0')
  {
    var syms := [Symbol(8, 0, "a", 'T', '\0')];
    assert Last(syms) == syms[0];
    assert syms[0 := Symbol(8, 4, "a", 'T', '\0')] == [Symbol(8, 4, "a", 'T', '\0')];
  }

  lemma SecondLineExample()
    ensures Accept([Symbol(8, 0, "a", 'T', '\0')], "c T b") == Some([Symbol(8, 4, "a", 'T', '\0'), Symbol(12, 0, "b", 'T', '\0')])
  {
    assert ParseHex("c") == Some(12) by {
      assert "c"[..0] == [];
    }
    AcceptShortLine([Symbol(8, 0, "a", 'T', '\0')], "c", "b", 12);
    assert "c" + " T " + "b" == "c T b";
    InferExample();
    assert [Symbol(8, 4, "a", 'T', '\0')] + [Symbol(12, 0, "b", 'T', '\0')]
        == [Symbol(8, 4, "a", 'T', '\0'), Symbol(12, 0, "b", 'T', '\0')];
  }

  /** Two lines in the layout `nm` uses for symbols without a size: the second fills in the size of
      the first from the distance between their addresses. */
  lemma ParseExample()
    ensures ParseAll(["8 T a", "c T b"]) == Some([Symbol(8, 4, "a", 'T', '\0'), Symbol(12, 0, "b", 'T', '\0')])
  {
    var lines := ["8 T a", "c T b"];
    FirstLineExample();
    SecondLineExample();
    assert lines[..1][..0] == [] && lines[..1] == ["8 T a"] && lines[..2] == lines;
    assert ParseAll(lines[..1]) == Accept([], "8 T a");
  }

  /** Once the script has stopped, later lines do not matter. */
  lemma {:induction false} ParseAllStops(lines: seq<string>, k: nat)
    requires k <= |lines| && ParseAll(lines[..k]).None?
    ensures ParseAll(lines).None?
    decreases |lines| - k
  {
    if k < |lines| {
      assert lines[..k + 1][..k] == lines[..k];
      ParseAllStops(lines, k + 1);
    } else {
      assert lines[..k] == lines;
    }
  }

  /** `for line in symbols: ...` (mapPacker.py lines 41-81), with `symNames` as a list that the loop
      appends to and whose last record it may update. `ok` is false where the script would stop. */
  method ParseSymbols(lines: seq<string>) returns (symNames: seq<Symbol>, ok: bool)
    ensures ok <==> ParseAll(lines).Some?
    ensures ok ==> symNames == ParseAll(lines).value && WellFormed(symNames)
  {
    symNames := [];
    for k := 0 to |lines|
      invariant ParseAll(lines[..k]) == Some(symNames)
    {
      assert lines[..k + 1][..k] == lines[..k];
      var tokens := Split(lines[k]);
      if |tokens| >= 3 && |tokens[|tokens| - 2]| == 1 {
        var parsedAddr := ParseHex(tokens[0]);
        if parsedAddr.None? {
          ParseAllStops(lines, k + 1);
          ok := false;
          return;
        }
        var addr := parsedAddr.value;
        var errc := '\0';
        if |symNames| > 0 {
          var prevEntry := symNames[|symNames| - 1];
          if prevEntry.size == 0 && addr > prevEntry.addr {
            var sizeToLastEntry := addr - prevEntry.addr;
            if sizeToLastEntry < MAX_SYMBOL_SIZE {
              symNames := symNames[|symNames| - 1 := prevEntry.(size := sizeToLastEntry)];
            } else {
              errc := 'S';
            }
          }
        }
        var name := tokens[|tokens| - 1];
        var typ := tokens[|tokens| - 2][0];
        var size := 0;
        if |tokens| >= 4 {
          var parsedSize := ParseHex(tokens[|tokens| - 3]);
          if parsedSize.None? {
            ParseAllStops(lines, k + 1);
            ok := false;
            return;
          }
          size := parsedSize.value;
        }
        symNames := symNames + [Symbol(addr, size, name, typ, errc)];
      }
    }
    assert lines[..|lines|] == lines;
    ParseAllWellFormed(lines);
    ok := true;
  }
}
