/** The running ABCI application over its database object. */
module KVApp {
  import opened Bytes
  import opened KVTx
  import opened KVStore
  import opened KVProtocol

  method CheckTx(tx: seq<byte>) returns (code: nat)
    ensures code == if IsValidTx(tx) then 0 else 1
  {
    code := if IsValidTx(tx) then 0 else 1;
  }

  /** NewKVStoreApp: null when the metadata cannot be loaded (log.Fatalf). */
  method NewKVStoreApp(state: State) returns (app: KVStoreApp?)
    ensures app == null <==> LoadMetaFrom(state.db).Fatal?
    ensures app != null ==> fresh(app) && app.state == state
    ensures app != null ==> app.Memory() == Mem(LoadMetaFrom(state.db).height, LoadMetaFrom(state.db).hash, [])
  {
    var l := state.LoadMeta();
    if l.Fatal? { return null; }
    app := new KVStoreApp(state, l.height, l.hash);
  }

  class KVStoreApp {
    const state: State
    var height: int64
    var appHash: seq<byte>
    var staged: seq<Pair>

    constructor (state: State, height: int64, appHash: seq<byte>)
      ensures this.state == state && Memory() == Mem(height, appHash, [])
    {
      this.state, this.height, this.appHash, this.staged := state, height, appHash, [];
    }

    function Memory(): Mem
      reads this
    {
      Mem(height, appHash, staged)
    }

    method Info() returns (lastHeight: int64, lastHash: seq<byte>)
      ensures lastHeight == height && lastHash == appHash
    {
      return height, appHash;
    }

    /** Code 1 without a value, or code 0 with it. */
    method Query(key: seq<byte>) returns (code: nat, val: seq<byte>)
      ensures key in state.db ==> code == 0 && val == state.db[key]
      ensures key !in state.db ==> code == 1 && val == []
    {
      var found := state.Get(key);
      if found.None? { return 1, []; }
      return 0, found.value;
    }

    /** Stages the valid transactions afresh; one result code per transaction. */
    method FinalizeBlock(reqHeight: int64, txs: Block) returns (codes: seq<nat>)
      modifies this
      ensures Memory() == Finalize(old(Memory()), reqHeight, txs)
      ensures |codes| == |txs| && forall i :: 0 <= i < |txs| ==> codes[i] == if IsValidTx(txs[i]) then 0 else 1
    {
      hide IsValidTx, ParseTx;
      staged := [];
      codes := [];
      for i := 0 to |txs|
        invariant staged == Stage(txs[..i]) && appHash == old(appHash)
        invariant |codes| == i && forall j :: 0 <= j < i ==> codes[j] == if IsValidTx(txs[j]) then 0 else 1
      {
        assert txs[..i + 1][..i] == txs[..i];
        if !IsValidTx(txs[i]) {
          codes := codes + [1];
          continue;
        }
        staged := staged + [ParseTx(txs[i])];
        codes := codes + [0];
      }
      assert txs[..|txs|] == txs;
      height := reqHeight;
    }

    /** Two database transactions, with the hash taken between them. */
    method Commit()
      modifies this, state
      ensures App(state.db, Memory()) == Seal(state.sha256, Flush(old(App(state.db, Memory()))))
    {
      hide Preimage, SaveMetaIn;
      if |staged| > 0 {
        state.BatchSet(staged);
      }
      appHash := state.Hash();
      state.SaveMeta(height, appHash);
      staged := [];
    }
  }
}
