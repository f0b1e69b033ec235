/**
 * The CSV loaders of load.py.  A file is the list of its lines; the
 * loaders skip the header line, strip the end of each line and split it
 * on `;`, then keep the leading fields the target table needs.  The bulk
 * loaders send the rows to the database in chunks of 1000 and, after each
 * chunk, report the share of the rows that came before it.  The database
 * cursor and the numeric conversions are outside the model: a row is its
 * fields as text.
 */
module Load {
  import opened Wrappers
  import opened Sequences

  /** The five kinds of file, in the order `load_file` tries them. */
  datatype Kind = Collar | Devia | Formation | Resi | Avp

  /** Past the first character, the occurrences are those of the rest, one position later. */
  lemma OccursInTail(s: string, sub: string, j: int)
    requires |s| > 0 && j >= 1
    ensures OccursAt(s, sub, j) <==> OccursAt(s[1..], sub, j - 1)
  {
    if 0 <= j <= |s| - |sub| {
      assert s[j..j + |sub|] == s[1..][j - 1..j - 1 + |sub|];
    }
  }

  /** `s.find(sub)`: the first position where `sub` occurs in `s`, or -1. */
  function Find(s: string, sub: string): (r: int)
    ensures r == -1 || OccursAt(s, sub, r)
    ensures r != -1 ==> forall j :: 0 <= j < r ==> !OccursAt(s, sub, j)
    ensures r == -1 ==> forall j :: !OccursAt(s, sub, j)
  {
    if |s| < |sub| then -1
    else if s[..|sub|] == sub then 0
    else
      var r := Find(s[1..], sub);
      assert forall j :: 1 <= j ==> (OccursAt(s, sub, j) <==> OccursAt(s[1..], sub, j - 1)) by {
        forall j | 1 <= j
          ensures OccursAt(s, sub, j) <==> OccursAt(s[1..], sub, j - 1)
        {
          OccursInTail(s, sub, j);
        }
      }
      if r == -1 then -1 else r + 1
  }

  /** `s.find(sub) != -1`. */
  predicate Contains(s: string, sub: string)
  {
    Find(s, sub) != -1
  }

  /** The word of the file name that selects each kind. */
  function Keyword(k: Kind): string
  {
    match k
    case Collar => "collar"
    case Devia => "devia"
    case Formation => "formation"
    case Resi => "resi"
    case Avp => "avp"
  }

  /** The kinds in the order they are tried. */
  const KINDS: seq<Kind> := [Collar, Devia, Formation, Resi, Avp]

  /** The start of the error `load_file` raises when no word occurs in the name. */
  const NotFound := "cannot find collar, avp, devia, formation or resi in filename "

  /**
   * `load_file`: the first kind whose word the file name contains, or an
   * error naming the five words when none is there.
   */
  function LoadFile(fileName: string): (r: Result<Kind, string>)
    ensures r.Success? ==> Contains(fileName, Keyword(r.value))
    ensures r.Failure? ==> r.error == NotFound + fileName
  {
    if Contains(fileName, "collar") then Success(Collar)
    else if Contains(fileName, "devia") then Success(Devia)
    else if Contains(fileName, "formation") then Success(Formation)
    else if Contains(fileName, "resi") then Success(Resi)
    else if Contains(fileName, "avp") then Success(Avp)
    else Failure(NotFound + fileName)
  }

  /** The words of the kinds, in the order they are tried. */
  lemma KeywordsInOrder()
    ensures Keyword(KINDS[0]) == "collar" && Keyword(KINDS[1]) == "devia" && Keyword(KINDS[2]) == "formation"
    ensures Keyword(KINDS[3]) == "resi" && Keyword(KINDS[4]) == "avp"
  {
  }

  /**
   * The dispatch picks kind `i` of the list exactly when the name holds
   * its word and none of the words tried before.
   */
  lemma LoadFileChoice(fileName: string, i: int)
    requires 0 <= i < |KINDS|
    ensures LoadFile(fileName) == Success(KINDS[i]) <==>
      Contains(fileName, Keyword(KINDS[i])) && forall j :: 0 <= j < i ==> !Contains(fileName, Keyword(KINDS[j]))
  {
    if LoadFile(fileName) == Success(KINDS[i]) {
      LoadFileChosen(fileName, i);
    }
    if Contains(fileName, Keyword(KINDS[i])) && forall j :: 0 <= j < i ==> !Contains(fileName, Keyword(KINDS[j])) {
      LoadFilePicks(fileName, i);
    }
  }

  /** The kind chosen holds its word, and none of the words tried before. */
  lemma LoadFileChosen(fileName: string, i: int)
    requires 0 <= i < |KINDS| && LoadFile(fileName) == Success(KINDS[i])
    ensures Contains(fileName, Keyword(KINDS[i])) && forall j :: 0 <= j < i ==> !Contains(fileName, Keyword(KINDS[j]))
  {
    KeywordsInOrder();
  }

  /** The first kind whose word the name holds is chosen. */
  lemma LoadFilePicks(fileName: string, i: int)
    requires 0 <= i < |KINDS| && Contains(fileName, Keyword(KINDS[i]))
    requires forall j :: 0 <= j < i ==> !Contains(fileName, Keyword(KINDS[j]))
    ensures LoadFile(fileName) == Success(KINDS[i])
  {
    KeywordsInOrder();
  }

  /** The dispatch fails exactly when the name holds none of the five words. */
  lemma LoadFileFails(fileName: string)
    ensures LoadFile(fileName).Failure? <==> forall j :: 0 <= j < |KINDS| ==> !Contains(fileName, Keyword(KINDS[j]))
  {
    KeywordsInOrder();
  }

  /** A name with both words goes to the kind tried first. */
  lemma CollarBeforeDevia()
    ensures LoadFile("collar_devia.csv") == Success(Collar)
  {
    assert "collar_devia.csv"[..6] == "collar";
  }

  /** `line.rstrip()`: the trailing white space removed. */
  function RStrip(line: string): (r: string)
    ensures r <= line
    ensures |r| > 0 ==> !IsSpace(r[|r| - 1])
    ensures forall i :: |r| <= i < |line| ==> IsSpace(line[i])
  {
    if |line| > 0 && IsSpace(line[|line| - 1]) then RStrip(line[..|line| - 1]) else line
  }

  /** How many leading fields each kind's row keeps. */
  function Arity(k: Kind): nat
  {
    match k
    case Collar => 5
    case Devia => 4
    case Formation => 5
    case Resi => 4
    case Avp => 4
  }

  /** `convert(line.rstrip().split(';'))`: the first fields, or an error when the line has too few. */
  function ConvertLine(k: Kind, line: string): (r: Result<seq<string>, string>)
    ensures r.Success? <==> |Split(RStrip(line), ';')| >= Arity(k)
    ensures r.Success? ==> r.value == Split(RStrip(line), ';')[..Arity(k)]
  {
    var x := Split(RStrip(line), ';');
    if |x| < Arity(k) then Failure("IndexError: list index out of range") else Success(x[..Arity(k)])
  }

  /** The lines after the header; an empty file has neither. */
  function Body(lines: seq<string>): (r: seq<string>)
    ensures |lines| > 0 ==> r == lines[1..]
    ensures |lines| == 0 ==> r == []
  {
    if |lines| == 0 then [] else lines[1..]
  }

  /** The comprehension over the body: every line converted, failing on the first line with too few fields. */
  function Rows(k: Kind, body: seq<string>): (r: Result<seq<seq<string>>, string>)
    ensures r.Success? <==> forall i :: 0 <= i < |body| ==> ConvertLine(k, body[i]).Success?
    ensures r.Success? ==> |r.value| == |body| && forall i :: 0 <= i < |body| ==> r.value[i] == ConvertLine(k, body[i]).value
  {
    if |body| == 0 then Success([])
    else
      match ConvertLine(k, body[0])
      case Failure(e) => Failure(e)
      case Success(row) =>
        match Rows(k, body[1..])
        case Failure(e) => Failure(e)
        case Success(rest) => Success([row] + rest)
  }

  /** Every converted row has the kind's number of fields. */
  lemma RowsArity(k: Kind, body: seq<string>)
    requires Rows(k, body).Success?
    ensures forall row :: row in Rows(k, body).value ==> |row| == Arity(k)
  {
    var rows := Rows(k, body).value;
    forall row | row in rows
      ensures |row| == Arity(k)
    {
      var i :| 0 <= i < |rows| && rows[i] == row;
    }
  }

  /** The rows of a file: the body's lines, converted. */
  function ParseFile(k: Kind, lines: seq<string>): Result<seq<seq<string>>, string>
  {
    Rows(k, Body(lines))
  }

  /** `load_collar`'s second insert: one hole per collar, with the collar's id as both ids. */
  function HoleRows(collars: seq<seq<string>>): (r: seq<(string, string)>)
    requires forall c :: c in collars ==> |c| > 0
    ensures |r| == |collars|
    ensures forall i :: 0 <= i < |r| ==> r[i].0 == r[i].1 == collars[i][0]
  {
    seq(|collars|, i requires 0 <= i < |collars| => assert collars[i] in collars; (collars[i][0], collars[i][0]))
  }

  /** The holes are the collars' ids, one for one, in order. */
  lemma HoleIds(collars: seq<seq<string>>, id: string)
    requires forall c :: c in collars ==> |c| > 0
    ensures (exists i :: 0 <= i < |collars| && collars[i][0] == id) <==> (id, id) in HoleRows(collars)
  {
    var holes := HoleRows(collars);
    if (id, id) in holes {
      var i :| 0 <= i < |holes| && holes[i] == (id, id);
      assert collars[i][0] == id;
    }
  }

  /** The size of a chunk. */
  const CHUNK_SIZE: nat := 1000

  /** The chunk sent when the loop's index is `i`: `data[i:min(i + 1000, len(data))]`. */
  function Chunk<T>(data: seq<T>, i: nat): (c: seq<T>)
    requires i < |data|
    ensures 0 < |c| <= CHUNK_SIZE
  {
    data[i..if i + CHUNK_SIZE < |data| then i + CHUNK_SIZE else |data|]
  }

  /** The chunk at `i` takes the flattened chunks from `data[..i]` to the end of that chunk. */
  lemma ChunkStep<T>(data: seq<T>, chunks: seq<seq<T>>, i: nat)
    requires i < |data| && Flatten(chunks) == data[..i]
    ensures Flatten(chunks + [Chunk(data, i)]) == data[..if i + CHUNK_SIZE < |data| then i + CHUNK_SIZE else |data|]
  {
    assert (chunks + [Chunk(data, i)])[..|chunks|] == chunks;
  }

  /** A ratio taken before a chunk lies in [0, 1). */
  lemma RatioBounds(i: nat, n: nat)
    requires i < n
    ensures 0.0 <= i as real / n as real < 1.0
  {
  }

  /**
   * The loop of `load_devia`, `load_resi` and `load_avp`: the chunks sent,
   * in order, and the ratios given to the progress display when there is
   * one.  The chunks are consecutive slices starting at 0, 1000, 2000, ...,
   * they cover the data exactly, and every ratio lies in [0, 1).
   */
  method ChunkLoop<T>(data: seq<T>, progress: bool) returns (chunks: seq<seq<T>>, ratios: seq<real>)
    ensures Flatten(chunks) == data
    ensures forall k :: 0 <= k < |chunks| ==> k * CHUNK_SIZE < |data| && chunks[k] == Chunk(data, k * CHUNK_SIZE)
    ensures |chunks| * CHUNK_SIZE >= |data|
    ensures progress ==> |ratios| == |chunks| && forall k :: 0 <= k < |ratios| ==> ratios[k] == (k * CHUNK_SIZE) as real / |data| as real
    ensures !progress ==> ratios == []
    ensures forall k :: 0 <= k < |ratios| ==> 0.0 <= ratios[k] < 1.0
  {
    chunks := [];
    ratios := [];
    var i := 0;
    while i < |data|
      invariant i == |chunks| * CHUNK_SIZE
      invariant i < |data| ==> Flatten(chunks) == data[..i]
      invariant i >= |data| ==> Flatten(chunks) == data
      invariant forall k :: 0 <= k < |chunks| ==> k * CHUNK_SIZE < |data| && chunks[k] == Chunk(data, k * CHUNK_SIZE)
      invariant progress ==> |ratios| == |chunks| && forall k :: 0 <= k < |ratios| ==> ratios[k] == (k * CHUNK_SIZE) as real / |data| as real
      invariant !progress ==> ratios == []
      invariant forall k :: 0 <= k < |ratios| ==> 0.0 <= ratios[k] < 1.0
    {
      var chunk := Chunk(data, i);
      ChunkStep(data, chunks, i);
      if i + CHUNK_SIZE >= |data| {
        assert data[..|data|] == data;
      }
      chunks := chunks + [chunk];
      if progress {
        RatioBounds(i, |data|);
        ratios := ratios + [i as real / |data| as real];
      }
      i := i + CHUNK_SIZE;
    }
  }
}
