/** `clean_text` of the PDF report: every space-separated word longer than 50 characters is cut
    into consecutive 50-character chunks joined by single spaces, so no token overflows a line. */
module PdfText {
  import opened PyStrings

  const ChunkSize: nat := 50

  /** `[word[i:i+50] for i in range(0, len(word), 50)]` for a non-empty word. */
  function Chunks(w: string): (cs: seq<string>)
    requires |w| > 0
    ensures |cs| > 0
    ensures forall i :: 0 <= i < |cs| ==> 0 < |cs[i]| <= ChunkSize
    ensures forall i :: 0 <= i < |cs| - 1 ==> |cs[i]| == ChunkSize
    decreases |w|
  {
    if |w| <= ChunkSize then [w] else [w[..ChunkSize]] + Chunks(w[ChunkSize..])
  }

  /** The pieces a word becomes: its chunks when it is too long, itself otherwise. */
  function Pieces(w: string): (ps: seq<string>)
    ensures |ps| > 0
  {
    if |w| > ChunkSize then Chunks(w) else [w]
  }

  /** The pieces of every word, word by word. */
  function PiecesOf(words: seq<string>): (gs: seq<seq<string>>)
    ensures |gs| == |words|
  {
    seq(|words|, i requires 0 <= i < |words| => Pieces(words[i]))
  }

  /** Each group joined with `sep`. */
  function JoinEach(gs: seq<seq<string>>, sep: string): (r: seq<string>)
    ensures |r| == |gs|
    ensures forall i :: 0 <= i < |gs| ==> r[i] == Join(gs[i], sep)
  {
    seq(|gs|, i requires 0 <= i < |gs| => Join(gs[i], sep))
  }

  /** The cleaned text: falsy (empty) text gives "", any other text its words, each replaced by
      its pieces joined with spaces, joined with spaces. */
  function Cleaned(text: string): string
  {
    if |text| == 0 then "" else Join(JoinEach(PiecesOf(Split(text, " ")), " "), " ")
  }

  /** The loop of `clean_text`, appending one cleaned word per word of the text. */
  method CleanText(text: string) returns (out: string)
    ensures out == Cleaned(text)
  {
    if |text| == 0 {
      return "";
    }
    var words := Split(text, " ");
    var cleanedWords: seq<string> := [];
    var i := 0;
    while i < |words|
      invariant 0 <= i <= |words|
      invariant |cleanedWords| == i
      invariant forall j :: 0 <= j < i ==> cleanedWords[j] == Join(Pieces(words[j]), " ")
    {
      var word := words[i];
      if |word| > ChunkSize {
        var chunks := Chunks(word);
        cleanedWords := cleanedWords + [Join(chunks, " ")];
      } else {
        cleanedWords := cleanedWords + [word];
      }
      i := i + 1;
    }
    assert cleanedWords == JoinEach(PiecesOf(words), " ");
    out := Join(cleanedWords, " ");
  }

  // ---------------------------------------------------------------- what the cut promises

  /** Strings laid end to end. */
  function Concat(parts: seq<string>): string
  {
    if |parts| == 0 then "" else parts[0] + Concat(parts[1..])
  }

  /** The lists laid end to end. */
  function Flatten(gs: seq<seq<string>>): seq<string>
  {
    if |gs| == 0 then [] else gs[0] + Flatten(gs[1..])
  }

  /** The chunks of a word put back together are the word; a chunk never holds a character the
      word lacks. */
  lemma {:induction false} ChunksConcat(w: string)
    requires |w| > 0
    ensures Concat(Chunks(w)) == w
    ensures forall i, c :: 0 <= i < |Chunks(w)| && c in Chunks(w)[i] ==> c in w
    decreases |w|
  {
    if |w| > ChunkSize {
      var rest := w[ChunkSize..];
      ChunksConcat(rest);
      var cs := Chunks(w);
      assert cs[1..] == Chunks(rest);
      assert w == w[..ChunkSize] + rest;
      forall i, c | 0 <= i < |cs| && c in cs[i]
        ensures c in w
      {
        if i > 0 {
          assert cs[i] == Chunks(rest)[i - 1];
          assert c in rest;
        }
      }
    }
  }

  /** A word of at most 50 characters is left alone; a longer one is cut into chunks that put
      back together give the word. */
  lemma PiecesFacts(w: string)
    ensures |w| <= ChunkSize ==> Pieces(w) == [w] && Join(Pieces(w), " ") == w
    ensures Concat(Pieces(w)) == w
    ensures forall i :: 0 <= i < |Pieces(w)| ==> |Pieces(w)[i]| <= ChunkSize
    ensures forall i :: 0 <= i < |Pieces(w)| ==> ' ' in w || ' ' !in Pieces(w)[i]
  {
    if |w| > ChunkSize {
      ChunksConcat(w);
    } else {
      assert Concat([w]) == w + Concat([]);
    }
  }

  /** Joining two non-empty lists puts one separator between their joins. */
  lemma {:induction false} JoinAppend(a: seq<string>, b: seq<string>, sep: string)
    requires |a| > 0 && |b| > 0
    ensures Join(a + b, sep) == Join(a, sep) + sep + Join(b, sep)
    decreases |a|
  {
    if |a| == 1 {
      JoinCons(a[0], b, sep);
      assert a + b == [a[0]] + b;
    } else {
      JoinAppend(a[1..], b, sep);
      assert a + b == [a[0]] + (a[1..] + b);
      JoinCons(a[0], a[1..] + b, sep);
      JoinCons(a[0], a[1..], sep);
      assert a == [a[0]] + a[1..];
    }
  }

  /** Joining joined groups is joining all their members. */
  lemma {:induction false} JoinFlatten(gs: seq<seq<string>>, sep: string)
    requires forall i :: 0 <= i < |gs| ==> |gs[i]| > 0
    ensures Join(JoinEach(gs, sep), sep) == Join(Flatten(gs), sep)
    decreases |gs|
  {
    var m := JoinEach(gs, sep);
    if |gs| == 1 {
      assert Flatten(gs[1..]) == [];
      assert Flatten(gs) == gs[0];
    } else if |gs| > 1 {
      var tail := gs[1..];
      JoinFlatten(tail, sep);
      assert m[1..] == JoinEach(tail, sep);
      FlattenNonEmpty(tail);
      JoinAppend(gs[0], Flatten(tail), sep);
    }
  }

  lemma {:induction false} FlattenNonEmpty(gs: seq<seq<string>>)
    requires |gs| > 0 && forall i :: 0 <= i < |gs| ==> |gs[i]| > 0
    ensures |Flatten(gs)| > 0
  {
  }

  /** Every member of a flattened list comes from one of the groups. */
  lemma {:induction false} FlattenMember(gs: seq<seq<string>>, p: string)
    requires p in Flatten(gs)
    ensures exists i, j :: 0 <= i < |gs| && 0 <= j < |gs[i]| && gs[i][j] == p
    decreases |gs|
  {
    if p !in gs[0] {
      FlattenMember(gs[1..], p);
      var i, j :| 0 <= i < |gs[1..]| && 0 <= j < |gs[1..][i]| && gs[1..][i][j] == p;
      assert gs[i + 1][j] == p;
    } else {
      var j :| 0 <= j < |gs[0]| && gs[0][j] == p;
    }
  }

  /** The cleaned text is the pieces of all words joined by single spaces. */
  lemma CleanedIsPieces(text: string)
    requires |text| > 0
    ensures Cleaned(text) == Join(Flatten(PiecesOf(Split(text, " "))), " ")
  {
    JoinFlatten(PiecesOf(Split(text, " ")), " ");
  }

  /** Text whose words are all at most 50 characters long comes back unchanged. */
  lemma ShortWordsUnchanged(text: string)
    requires forall w :: w in Split(text, " ") ==> |w| <= ChunkSize
    ensures Cleaned(text) == text
  {
    if |text| > 0 {
      var words := Split(text, " ");
      var cleaned := JoinEach(PiecesOf(words), " ");
      forall i | 0 <= i < |words|
        ensures cleaned[i] == words[i]
      {
        PiecesFacts(words[i]);
      }
      assert cleaned == words;
      JoinSplit(text, " ");
    }
  }

  /** Every space-separated token of the result has at most 50 characters, and the tokens are
      the words' pieces in order. */
  lemma TokensBounded(text: string)
    requires |text| > 0
    ensures var tokens := Split(Cleaned(text), " ");
      && tokens == Flatten(PiecesOf(Split(text, " ")))
      && forall t :: t in tokens ==> |t| <= ChunkSize
  {
    var words := Split(text, " ");
    var gs := PiecesOf(words);
    CleanedIsPieces(text);
    forall i | 0 <= i < |gs|
      ensures forall j :: 0 <= j < |gs[i]| ==> |gs[i][j]| <= ChunkSize && ' ' !in gs[i][j]
    {
      PiecesFacts(words[i]);
      assert !Contains(words[i], " ");
      NoChar(words[i], ' ');
    }
    forall p | p in Flatten(gs)
      ensures ' ' !in p && |p| <= ChunkSize
    {
      FlattenMember(gs, p);
    }
    FlattenNonEmpty(gs);
    SplitJoin(Flatten(gs), ' ');
  }

  /** Removing the inserted spaces gives the text back: the pieces of each word, put back
      together, are the word, and the words joined by spaces are the text. */
  lemma PiecesRebuildText(text: string)
    ensures var words := Split(text, " ");
      Join(seq(|words|, i requires 0 <= i < |words| => Concat(PiecesOf(words)[i])), " ") == text
  {
    var words := Split(text, " ");
    var rebuilt := seq(|words|, i requires 0 <= i < |words| => Concat(PiecesOf(words)[i]));
    forall i | 0 <= i < |words|
      ensures rebuilt[i] == words[i]
    {
      PiecesFacts(words[i]);
    }
    assert rebuilt == words;
    JoinSplit(text, " ");
  }
}
