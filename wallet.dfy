// The balance store shared by the FASTag toll server and the game-coin
// wallet server. Both keep a dictionary from an account name (a vehicle
// registration or a player name) to a balance, and apply 4-byte
// instructions packed as '>2sH': two instruction bytes and an unsigned
// big-endian 16-bit amount. A reply has the same layout.

module Wallet {

  type Byte = b: int | 0 <= b < 256

  /** The 'H' field of the wire format. */
  type Amount = a: int | 0 <= a <= 0xFFFF

  const MAX_BALANCE: int := 65535
  const INITIAL_BALANCE: int := 1000

  const CR: seq<Byte> := [0x43, 0x52]   // b'CR': recharge
  const DB: seq<Byte> := [0x44, 0x42]   // b'DB': deduct
  const BA: seq<Byte> := [0x42, 0x41]   // b'BA': the new balance follows
  const ER: seq<Byte> := [0x45, 0x52]   // b'ER': the request failed

  /** Every balance fits the reply's unsigned 16-bit field. */
  predicate InRange(balances: map<string, int>)
  {
    forall id | id in balances :: 0 <= balances[id] <= MAX_BALANCE
  }

  datatype Reply = Reply(code: seq<Byte>, value: int)

  /** process_instruction on a snapshot of the store: the reply and the new
      store. */
  function Apply(balances: map<string, int>, id: string, instr: seq<Byte>, amount: Amount): (r: (Reply, map<string, int>))
    requires id in balances
  {
    var balance := balances[id];
    if instr == CR then
      if balance + amount <= MAX_BALANCE then
        (Reply(BA, balance + amount), balances[id := balance + amount])
      else (Reply(ER, 0), balances)
    else if instr == DB then
      if balance >= amount then
        (Reply(BA, balance - amount), balances[id := balance - amount])
      else (Reply(ER, 0), balances)
    else (Reply(ER, 0), balances)
  }

  /** A recharge within the cap adds the amount and replies with the new balance. */
  lemma CreditWithinCap(balances: map<string, int>, id: string, amount: Amount)
    requires id in balances && balances[id] + amount <= MAX_BALANCE
    ensures var (reply, after) := Apply(balances, id, CR, amount);
      reply == Reply(BA, balances[id] + amount) && after[id] == balances[id] + amount
  {
  }

  /** A recharge past the cap is refused and changes nothing. */
  lemma CreditOverCap(balances: map<string, int>, id: string, amount: Amount)
    requires id in balances && balances[id] + amount > MAX_BALANCE
    ensures Apply(balances, id, CR, amount) == (Reply(ER, 0), balances)
  {
  }

  /** A deduction covered by the balance subtracts the amount. */
  lemma DebitCovered(balances: map<string, int>, id: string, amount: Amount)
    requires id in balances && balances[id] >= amount
    ensures var (reply, after) := Apply(balances, id, DB, amount);
      reply == Reply(BA, balances[id] - amount) && after[id] == balances[id] - amount
  {
  }

  /** A deduction the balance does not cover is refused and changes nothing. */
  lemma DebitUncovered(balances: map<string, int>, id: string, amount: Amount)
    requires id in balances && balances[id] < amount
    ensures Apply(balances, id, DB, amount) == (Reply(ER, 0), balances)
  {
  }

  /** Any other instruction (the game client's b'CP' among them) is refused
      and changes nothing. */
  lemma OtherInstruction(balances: map<string, int>, id: string, instr: seq<Byte>, amount: Amount)
    requires id in balances && instr != CR && instr != DB
    ensures Apply(balances, id, instr, amount) == (Reply(ER, 0), balances)
  {
  }

  /** Only the named account may change, the set of accounts stays the same,
      and a refused request changes nothing. */
  lemma ApplyFrame(balances: map<string, int>, id: string, instr: seq<Byte>, amount: Amount)
    requires id in balances
    ensures var (reply, after) := Apply(balances, id, instr, amount);
      after.Keys == balances.Keys &&
      (forall other | other in balances && other != id :: after[other] == balances[other]) &&
      (reply.code == ER ==> reply.value == 0 && after == balances) &&
      (reply.code == BA ==> after[id] == reply.value)
  {
  }

  /** Balances stay within 0 .. 65535, and every reply value fits the
      16-bit field. */
  lemma ApplyInRange(balances: map<string, int>, id: string, instr: seq<Byte>, amount: Amount)
    requires id in balances && InRange(balances)
    ensures var (reply, after) := Apply(balances, id, instr, amount);
      InRange(after) && 0 <= reply.value <= 0xFFFF
  {
  }

  /** A deduction of the amount just recharged restores the store, provided
      the balance was not negative. */
  lemma DebitUndoesCredit(balances: map<string, int>, id: string, amount: Amount)
    requires id in balances && 0 <= balances[id] && balances[id] + amount <= MAX_BALANCE
    ensures var after := Apply(balances, id, CR, amount).1;
      id in after && Apply(after, id, DB, amount).1 == balances
  {
    var after := Apply(balances, id, CR, amount).1;
    assert after[id] == balances[id] + amount;
    assert DB != CR by {
      assert DB[0] != CR[0];
    }
    assert Apply(after, id, DB, amount).1 == after[id := balances[id]];
    assert after[id := balances[id]] == balances;
  }

  /** A recharge of the amount just deducted restores the store, provided
      the account was within the cap. */
  lemma CreditUndoesDebit(balances: map<string, int>, id: string, amount: Amount)
    requires id in balances && amount <= balances[id] <= MAX_BALANCE
    ensures var after := Apply(balances, id, DB, amount).1;
      id in after && Apply(after, id, CR, amount).1 == balances
  {
    var after := Apply(balances, id, DB, amount).1;
    assert after[id] == balances[id] - amount;
    assert Apply(after, id, CR, amount).1 == after[id := balances[id]];
    assert after[id := balances[id]] == balances;
  }

  // ---------------------------------------------------------------------------
  // The '>2sH' wire format

  /** struct.pack('>2sH', code, value). */
  function Pack(code: seq<Byte>, value: Amount): (data: seq<Byte>)
    requires |code| == 2
    ensures |data| == 4 && data[..2] == code
  {
    code + [value / 256, value % 256]
  }

  /** struct.unpack('>2sH', data) on a 4-byte packet. */
  function Unpack(data: seq<Byte>): (r: (seq<Byte>, Amount))
    requires |data| == 4
    ensures |r.0| == 2
  {
    (data[..2], (data[2] as int) * 256 + data[3] as int)
  }

  lemma UnpackPack(code: seq<Byte>, value: Amount)
    requires |code| == 2
    ensures Unpack(Pack(code, value)) == (code, value)
  {
  }

  lemma PackUnpack(data: seq<Byte>)
    requires |data| == 4
    ensures Pack(Unpack(data).0, Unpack(data).1) == data
  {
    var (code, value) := Unpack(data);
    assert value / 256 == data[2] && value % 256 == data[3];
    assert data == data[..2] + [data[2], data[3]];
  }

  // ---------------------------------------------------------------------------
  // The store itself: the module-level dictionary of either server

  class Ledger {
    var balances: map<string, int>

    /** An empty store, as when no save file exists yet. */
    constructor()
      ensures balances == map[]
    {
      balances := map[];
    }

    /** process_instruction: reads and writes the account in place. */
    method ProcessInstruction(id: string, instr: seq<Byte>, amount: Amount) returns (code: seq<Byte>, value: int)
      requires id in balances
      modifies this
      ensures (Reply(code, value), balances) == Apply(old(balances), id, instr, amount)
      ensures InRange(old(balances)) ==> InRange(balances) && 0 <= value <= 0xFFFF
    {
      if InRange(balances) {
        ApplyInRange(balances, id, instr, amount);
      }
      var balance := balances[id];
      if instr == CR {
        if balance + amount <= MAX_BALANCE {
          balance := balance + amount;
          balances := balances[id := balance];
          return BA, balance;
        } else {
          return ER, 0;
        }
      } else if instr == DB {
        if balance >= amount {
          balance := balance - amount;
          balances := balances[id := balance];
          return BA, balance;
        } else {
          return ER, 0;
        }
      } else {
        return ER, 0;
      }
    }

    /** The registration branch of the login handshake: a new account starts
        at 1000, and an existing one is never overwritten. */
    method Register(id: string) returns (created: bool)
      modifies this
      ensures created <==> id !in old(balances)
      ensures created ==> balances == old(balances)[id := INITIAL_BALANCE]
      ensures !created ==> balances == old(balances)
      ensures InRange(old(balances)) ==> InRange(balances)
    {
      if id in balances {
        created := false;
      } else {
        balances := balances[id := INITIAL_BALANCE];
        created := true;
      }
    }
  }
}
