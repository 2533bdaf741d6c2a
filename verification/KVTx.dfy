/** The key-value application's transaction format, `key=value`. */
module KVTx {
  import opened Bytes

  type Pair = (seq<byte>, seq<byte>)

  const EQUALS: byte := 61

  /** Position of the first '=', the length when there is none. */
  function FirstEquals(tx: seq<byte>): (i: nat)
    ensures i <= |tx| && EQUALS !in tx[..i] && (i < |tx| ==> tx[i] == EQUALS)
  {
    if tx == [] || tx[0] == EQUALS then 0
    else
      var i := 1 + FirstEquals(tx[1..]);
      assert tx[..i] == [tx[0]] + tx[1..][..i - 1];
      i
  }

  /** bytes.SplitN(tx, "=", 2) */
  function SplitN2(tx: seq<byte>): seq<seq<byte>> {
    var i := FirstEquals(tx);
    if i == |tx| then [tx] else [tx[..i], tx[i + 1..]]
  }

  predicate IsValidTx(tx: seq<byte>) {
    |SplitN2(tx)| == 2 && |SplitN2(tx)[0]| > 0
  }

  function ParseTx(tx: seq<byte>): Pair
    requires IsValidTx(tx)
  {
    (SplitN2(tx)[0], SplitN2(tx)[1])
  }

  /** The client's "%s=%s". */
  function PrintTx(k: seq<byte>, v: seq<byte>): seq<byte> {
    k + [EQUALS] + v
  }

  lemma {:induction false} FirstEqualsUnique(tx: seq<byte>, i: nat)
    requires i < |tx| && tx[i] == EQUALS && EQUALS !in tx[..i]
    ensures FirstEquals(tx) == i
  {
    if i > 0 {
      assert tx[..i] == [tx[0]] + tx[1..][..i - 1];
      FirstEqualsUnique(tx[1..], i - 1);
    }
  }

  /** Parsing recovers the printed pair exactly when the key is non-empty and has no '='. */
  lemma ParsePrint(k: seq<byte>, v: seq<byte>)
    ensures IsValidTx(PrintTx(k, v)) && ParseTx(PrintTx(k, v)) == (k, v) <==> k != [] && EQUALS !in k
  {
    var tx := PrintTx(k, v);
    assert tx[|k|] == EQUALS && tx[..|k|] == k && tx[|k| + 1..] == v;
    if EQUALS !in k { FirstEqualsUnique(tx, |k|); }
  }

  /** Every valid transaction rejoins to itself, and its key is one that prints safely. */
  lemma PrintParse(tx: seq<byte>)
    requires IsValidTx(tx)
    ensures PrintTx(ParseTx(tx).0, ParseTx(tx).1) == tx
    ensures ParseTx(tx).0 != [] && EQUALS !in ParseTx(tx).0
  {
    var i := FirstEquals(tx);
    assert tx == tx[..i] + [tx[i]] + tx[i + 1..];
  }

  /** A transaction is valid exactly when it prints some non-empty, '='-free key. */
  lemma ValidIffPrinted(tx: seq<byte>)
    ensures IsValidTx(tx) <==> exists k: seq<byte>, v: seq<byte> :: tx == PrintTx(k, v) && k != [] && EQUALS !in k
  {
    if IsValidTx(tx) {
      PrintParse(tx);
    }
    if k: seq<byte>, v: seq<byte> :| tx == PrintTx(k, v) && k != [] && EQUALS !in k {
      ParsePrint(k, v);
    }
  }

  /** The parsed valid transactions of a block, in order. */
  function Stage(txs: seq<seq<byte>>): seq<Pair> {
    if txs == [] then []
    else
      var last := txs[|txs| - 1];
      Stage(txs[..|txs| - 1]) + if IsValidTx(last) then [ParseTx(last)] else []
  }

  lemma {:induction false} StageConcat(a: seq<seq<byte>>, b: seq<seq<byte>>)
    ensures Stage(a + b) == Stage(a) + Stage(b)
  {
    hide IsValidTx, ParseTx;
    if b == [] {
      assert a + b == a;
    } else {
      StageConcat(a, b[..|b| - 1]);
      assert (a + b)[..|a + b| - 1] == a + b[..|b| - 1];
    }
  }

  /** One transaction stages its pair if it is valid and nothing otherwise; with
      StageConcat this is all of Stage. */
  lemma StageOne(tx: seq<byte>)
    ensures Stage([tx]) == if IsValidTx(tx) then [ParseTx(tx)] else []
  {
    hide IsValidTx, ParseTx;
    assert [tx][..0] == [] && Stage([]) == [];
  }

  /** The separator is the character '='. */
  lemma PrintForm(k: seq<byte>, v: seq<byte>)
    ensures PrintTx(k, v) == k + Ascii("=") + v
  {
    assert Ascii("=") == [61];
  }

  lemma {:induction false} StagedKeysPrintable(txs: seq<seq<byte>>, p: Pair)
    requires p in Stage(txs)
    ensures PrintTx(p.0, p.1) in txs && p.0 != [] && EQUALS !in p.0
  {
    var front, last := txs[..|txs| - 1], txs[|txs| - 1];
    if p in Stage(front) {
      StagedKeysPrintable(front, p);
    } else {
      PrintParse(last);
    }
  }
}
