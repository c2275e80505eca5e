/** The chat repository: messages saved as blocks of a content-addressed
    store and read back by CID, one at a time or as a conversation. The
    repository's clock is read by the caller and handed to `Save`. */
module ChatRepository {

  import opened Wrappers
  import opened Bytes
  import opened Blockstore
  import CM = ChatMessage
  import IsoInstant

  /** `find(cid)`: nothing when the store has no block under `cid`,
      otherwise the block decoded by `fromBytes`, whose exception passes
      through. */
  function Find(blocks: map<Cid, seq<byte>>, cid: Cid): (r: Result<Option<CM.ChatMessage>, CM.Error>)
    ensures r == Success(None) <==> cid !in blocks
    ensures cid in blocks && CM.FromBytes(blocks[cid]).Success? ==> r == Success(Some(CM.FromBytes(blocks[cid]).value))
    ensures cid in blocks && CM.FromBytes(blocks[cid]).Failure? ==> r == Failure(CM.FromBytes(blocks[cid]).error)
  {
    if cid !in blocks then Success(None)
    else
      match CM.FromBytes(blocks[cid])
      case Success(m) => Success(Some(m))
      case Failure(e) => Failure(e)
  }

  /** What `loadConversation(ids)` returns: the messages found for the ids,
      in the order of the ids, absent ids skipped; the exception of the first
      block that fails to decode ends it. Never more messages than ids. */
  function Conversation(blocks: map<Cid, seq<byte>>, ids: seq<Cid>): (r: Result<seq<CM.ChatMessage>, CM.Error>)
    ensures r.Success? ==> |r.value| <= |ids|
    decreases |ids|
  {
    if ids == [] then Success([])
    else
      match Conversation(blocks, ids[..|ids| - 1])
      case Failure(e) => Failure(e)
      case Success(prev) =>
        match Find(blocks, ids[|ids| - 1])
        case Failure(e) => Failure(e)
        case Success(None) => Success(prev)
        case Success(Some(m)) => Success(prev + [m])
  }

  /** Two results in sequence: the first failure, or both lists joined. */
  function Then(x: Result<seq<CM.ChatMessage>, CM.Error>, y: Result<seq<CM.ChatMessage>, CM.Error>): Result<seq<CM.ChatMessage>, CM.Error>
  {
    match x
    case Failure(e) => Failure(e)
    case Success(xs) =>
      match y
      case Failure(e) => Failure(e)
      case Success(ys) => Success(xs + ys)
  }

  /** Loading a conversation of one id: the message, nothing for an absent
      id, or the decoding failure. */
  lemma ConversationOfOne(blocks: map<Cid, seq<byte>>, id: Cid)
    ensures Conversation(blocks, [id]) ==
      match Find(blocks, id)
      case Failure(e) => Failure(e)
      case Success(None) => Success([])
      case Success(Some(m)) => Success([m])
  {
    var one := [id];
    assert one[..|one| - 1] == [];
    assert one[|one| - 1] == id;
    match Find(blocks, id)
    case Failure(e) =>
    case Success(None) =>
    case Success(Some(m)) => assert [] + [m] == [m];
  }

  /** `Then` is associative. */
  lemma ThenAssociative(x: Result<seq<CM.ChatMessage>, CM.Error>, y: Result<seq<CM.ChatMessage>, CM.Error>,
                        z: Result<seq<CM.ChatMessage>, CM.Error>)
    ensures Then(Then(x, y), z) == Then(x, Then(y, z))
  {
    if x.Success? && y.Success? && z.Success? {
      assert x.value + y.value + z.value == x.value + (y.value + z.value);
    }
  }

  /** One more id at the end adds what loading it alone gives. */
  lemma ConversationSnoc(blocks: map<Cid, seq<byte>>, ids: seq<Cid>, id: Cid)
    ensures Conversation(blocks, ids + [id]) == Then(Conversation(blocks, ids), Conversation(blocks, [id]))
  {
    var all := ids + [id];
    assert all[..|all| - 1] == ids;
    assert all[|all| - 1] == id;
    ConversationOfOne(blocks, id);
    if Find(blocks, id) == Success(None) && Conversation(blocks, ids).Success? {
      var xs := Conversation(blocks, ids).value;
      assert xs + [] == xs;
    }
  }

  /** Loading runs through the ids in order: the conversation of `a + b` is
      that of `a` followed by that of `b`, and the first failure wins. */
  lemma {:induction false} ConversationAppend(blocks: map<Cid, seq<byte>>, a: seq<Cid>, b: seq<Cid>)
    ensures Conversation(blocks, a + b) == Then(Conversation(blocks, a), Conversation(blocks, b))
    decreases |b|
  {
    if b == [] {
      assert a + b == a;
      match Conversation(blocks, a)
      case Failure(e) =>
      case Success(xs) => assert xs + [] == xs;
    } else {
      var init, last := b[..|b| - 1], b[|b| - 1];
      assert b == init + [last];
      assert a + b == (a + init) + [last];
      ConversationSnoc(blocks, a + init, last);
      ConversationAppend(blocks, a, init);
      ThenAssociative(Conversation(blocks, a), Conversation(blocks, init), Conversation(blocks, [last]));
      ConversationSnoc(blocks, init, last);
    }
  }

  /** An id with no block leaves no trace: the conversation is the one of
      the other ids. */
  lemma SkipsAbsent(blocks: map<Cid, seq<byte>>, ids: seq<Cid>, i: nat)
    requires i < |ids| && ids[i] !in blocks
    ensures Conversation(blocks, ids) == Conversation(blocks, ids[..i] + ids[i + 1..])
  {
    assert ids == ids[..i] + ([ids[i]] + ids[i + 1..]);
    ConversationAppend(blocks, ids[..i], [ids[i]] + ids[i + 1..]);
    ConversationAppend(blocks, [ids[i]], ids[i + 1..]);
    ConversationOfOne(blocks, ids[i]);
    ConversationAppend(blocks, ids[..i], ids[i + 1..]);
    match Conversation(blocks, ids[i + 1..])
    case Failure(e) =>
    case Success(ys) => assert [] + ys == ys;
  }

  /** A found message after a loaded prefix is appended to it. */
  lemma FoundStep(blocks: map<Cid, seq<byte>>, ids: seq<Cid>, id: Cid, prev: seq<CM.ChatMessage>, m: CM.ChatMessage)
    requires Conversation(blocks, ids) == Success(prev)
    requires Find(blocks, id) == Success(Some(m))
    ensures Conversation(blocks, ids + [id]) == Success(prev + [m])
  {
    ConversationSnoc(blocks, ids, id);
    ConversationOfOne(blocks, id);
  }

  /** When `find` gives a message for every id, the conversation is those
      messages, one per id, in the order of the ids. */
  lemma {:induction false} AllPresent(blocks: map<Cid, seq<byte>>, ids: seq<Cid>, messages: seq<CM.ChatMessage>)
    requires |messages| == |ids|
    requires forall i {:trigger messages[i]} :: 0 <= i < |ids| ==> Find(blocks, ids[i]) == Success(Some(messages[i]))
    ensures Conversation(blocks, ids) == Success(messages)
    decreases |ids|
  {
    if ids != [] {
      var n := |ids| - 1;
      var init, last := ids[..n], ids[n];
      assert ids == init + [last];
      assert messages == messages[..n] + [messages[n]];
      forall i | 0 <= i < n
        ensures Find(blocks, init[i]) == Success(Some(messages[..n][i]))
      {
        assert Find(blocks, ids[i]) == Success(Some(messages[i]));
        assert init[i] == ids[i] && messages[..n][i] == messages[i];
      }
      AllPresent(blocks, init, messages[..n]);
      FoundStep(blocks, init, last, messages[..n], messages[n]);
    }
  }

  /** Loading fails exactly when some id has a block that does not decode. */
  lemma {:induction false} FailsIff(blocks: map<Cid, seq<byte>>, ids: seq<Cid>)
    ensures Conversation(blocks, ids).Failure? <==>
            exists i :: 0 <= i < |ids| && ids[i] in blocks && CM.FromBytes(blocks[ids[i]]).Failure?
    decreases |ids|
  {
    if ids != [] {
      var init, last := ids[..|ids| - 1], ids[|ids| - 1];
      assert ids == init + [last];
      FailsIff(blocks, init);
      ConversationSnoc(blocks, init, last);
      ConversationOfOne(blocks, last);
      assert Conversation(blocks, [last]).Failure? <==> Find(blocks, last).Failure?;
      assert Find(blocks, last).Failure? <==> last in blocks && CM.FromBytes(blocks[last]).Failure?;
      assert forall i :: 0 <= i < |init| ==> init[i] == ids[i];
      if exists i :: 0 <= i < |ids| && ids[i] in blocks && CM.FromBytes(blocks[ids[i]]).Failure? {
        var i :| 0 <= i < |ids| && ids[i] in blocks && CM.FromBytes(blocks[ids[i]]).Failure?;
        if i < |init| {
          assert init[i] == ids[i];
        }
      }
    }
  }

  /** A failure in a prefix of the ids is the failure of the whole load. */
  lemma PrefixFailure(blocks: map<Cid, seq<byte>>, ids: seq<Cid>, k: nat)
    requires k <= |ids| && Conversation(blocks, ids[..k]).Failure?
    ensures Conversation(blocks, ids) == Conversation(blocks, ids[..k])
  {
    assert ids == ids[..k] + ids[k..];
    ConversationAppend(blocks, ids[..k], ids[k..]);
  }

  /** A saved message is found again under the returned CID, provided its
      sender holds no line break. */
  lemma SaveThenFind(blocks: map<Cid, seq<byte>>, m: CM.ChatMessage)
    requires '\n' !in m.sender
    ensures var data := CM.ToBytes(m);
            Find(blocks[ContentId(data, Raw) := data], ContentId(data, Raw)) == Success(Some(m))
  {
    CM.RoundTrip(m);
  }

  /** Storing a block under one CID leaves `find` of every other CID as it
      was. */
  lemma FindOthers(blocks: map<Cid, seq<byte>>, cid: Cid, data: seq<byte>)
    ensures forall other :: other != cid ==> Find(blocks[cid := data], other) == Find(blocks, other)
  {
    forall other | other != cid
      ensures Find(blocks[cid := data], other) == Find(blocks, other)
    {
      var after := blocks[cid := data];
      assert (other in after) == (other in blocks);
      if other in blocks {
        assert after[other] == blocks[other];
      }
    }
  }

  class ChatRepository {

    const store: Blockstore

    constructor (store: Blockstore)
      ensures this.store == store
    {
      this.store := store;
    }

    /** `save(sender, message)`: build the message with the clock's instant
        `now`, store its bytes as a raw block and return the block's CID.
        Only the entry under that CID changes, and `find` of it gives the
        message back when the sender holds no line break. */
    method Save(sender: string, message: string, now: IsoInstant.Instant) returns (cid: Cid)
      requires store.Valid()
      modifies store
      ensures store.Valid()
      ensures cid == ContentId(CM.ToBytes(CM.ChatMessage(sender, now, message)), Raw)
      ensures store.blocks == old(store.blocks)[cid := CM.ToBytes(CM.ChatMessage(sender, now, message))]
      ensures '\n' !in sender ==> Find(store.blocks, cid) == Success(Some(CM.ChatMessage(sender, now, message)))
      ensures forall other :: other != cid ==> Find(store.blocks, other) == Find(old(store.blocks), other)
    {
      var chatMessage := CM.ChatMessage(sender, now, message);
      ghost var before := store.blocks;
      cid := store.Put(CM.ToBytes(chatMessage), Raw);
      FindOthers(before, cid, CM.ToBytes(chatMessage));
      if '\n' !in sender {
        CM.RoundTrip(chatMessage);
      }
    }

    /** `loadConversation(ids)`: look every id up in order, keep the messages
        found, and stop at the first block that fails to decode. */
    method LoadConversation(ids: seq<Cid>) returns (r: Result<seq<CM.ChatMessage>, CM.Error>)
      ensures r == Conversation(store.blocks, ids)
      ensures ids == [] ==> r == Success([])
    {
      var messages: seq<CM.ChatMessage> := [];
      for i := 0 to |ids|
        invariant Conversation(store.blocks, ids[..i]) == Success(messages)
      {
        assert ids[..i + 1][..i] == ids[..i];
        var found := Find(store.blocks, ids[i]);
        match found {
          case Failure(e) =>
            PrefixFailure(store.blocks, ids, i + 1);
            return Failure(e);
          case Success(None) =>
          case Success(Some(m)) =>
            messages := messages + [m];
        }
      }
      assert ids[..|ids|] == ids;
      return Success(messages);
    }
  }
}
