/** The rows of the database, and the keyed-hash index entries they give rise to. */
module Tables {
  import opened Common
  import opened Sm4

  datatype Field = Name | Phone | Address

  datatype Plain = Plain(name: Bytes, phone: Bytes, address: Bytes) {
    function Get(f: Field): Bytes {
      match f case Name => name case Phone => phone case Address => address
    }
  }

  // The three columns sensitive_data keeps for one field.
  datatype Cell = Cell(cipher: Bytes, blind: Bytes, tag: Bytes)

  datatype Row = Row(encVersion: int, name: Cell, phone: Cell, address: Cell) {
    function Get(f: Field): Cell {
      match f case Name => name case Phone => phone case Address => address
    }

    function WithBlind(f: Field, blind: Bytes): (r: Row)
      ensures r.encVersion == encVersion
      ensures forall g: Field :: r.Get(g) == if g == f then Get(g).(blind := blind) else Get(g)
    {
      match f
      case Name => this.(name := name.(blind := blind))
      case Phone => this.(phone := phone.(blind := blind))
      case Address => this.(address := address.(blind := blind))
    }
  }

  // One row of fuzzy_inverted; the table has a unique key over the three columns.
  datatype Token = Token(hash: Bytes, id: int, field: Field)

  datatype Tables = Store(main: map<int, Row>, inverted: set<Token>)

  // The random vectors of the three encryptions of one write.
  datatype Vectors = Vectors(name: Block, phone: Block, address: Block) {
    function Get(f: Field): Block {
      match f case Name => name case Phone => phone case Address => address
    }
  }

  // ---- Bigrams ----

  function SplitBigram(text: Bytes): seq<Bytes> {
    if |text| == 0 then []
    else if |text| == 1 then [text]
    else seq(|text| - 1, i requires 0 <= i < |text| - 1 => text[i..i + 2])
  }

  function HashTokens(c: Crypto, tokens: seq<Bytes>, key: Bytes): seq<Bytes> {
    seq(|tokens|, i requires 0 <= i < |tokens| => HmacHex(c, tokens[i], key))
  }

  method SplitBigrams(text: Bytes) returns (tokens: seq<Bytes>)
    ensures tokens == SplitBigram(text)
  {
    tokens := [];
    if |text| == 0 {
      return;
    }
    if |text| == 1 {
      tokens := tokens + [text];
      return;
    }
    var i := 0;
    while i + 1 < |text|
      invariant 0 <= i < |text| && tokens == SplitBigram(text)[..i]
    {
      tokens := tokens + [text[i..i + 2]];
      i := i + 1;
    }
  }

  method HashAllTokens(c: Crypto, tokens: seq<Bytes>, key: Bytes) returns (hashes: seq<Bytes>)
    ensures hashes == HashTokens(c, tokens, key)
  {
    hashes := [];
    for i := 0 to |tokens|
      invariant hashes == HashTokens(c, tokens, key)[..i]
    {
      hashes := hashes + [HmacHex(c, tokens[i], key)];
    }
  }

  // The index entries of one text; INSERT IGNORE makes them a set.
  function Entries(hashes: seq<Bytes>, id: int, f: Field): set<Token> {
    set h | h in hashes :: Token(h, id, f)
  }

  function TokensFor(c: Crypto, id: int, f: Field, text: Bytes, key: Bytes): set<Token> {
    Entries(HashTokens(c, SplitBigram(text), key), id, f)
  }

  function TokensOfRow(c: Crypto, id: int, data: Plain, key: Bytes): set<Token> {
    TokensFor(c, id, Name, data.name, key) + TokensFor(c, id, Phone, data.phone, key)
      + TokensFor(c, id, Address, data.address, key)
  }

  // ---- Rows ----

  function SealedCell(c: Crypto, text: Bytes, encKey: Bytes, idxKey: Bytes, tagKey: Bytes, iv: Block): Cell {
    var cipher := Sealed(c, text, encKey, iv);
    Cell(cipher, HmacHex(c, text, idxKey), HmacHex(c, cipher, tagKey))
  }

  function SealedRow(c: Crypto, data: Plain, encKey: Bytes, idxKey: Bytes, tagKey: Bytes, version: int,
      ivs: Vectors): Row {
    Row(version,
        SealedCell(c, data.name, encKey, idxKey, tagKey, ivs.name),
        SealedCell(c, data.phone, encKey, idxKey, tagKey, ivs.phone),
        SealedCell(c, data.address, encKey, idxKey, tagKey, ivs.address))
  }

  // The row's ciphertexts fit the buffers they are fetched into. A longer one makes
  // mysql_stmt_fetch report truncation, which ends every fetch loop.
  predicate Readable(row: Row) {
    |row.name.cipher| <= COLUMN_BUFFER && |row.phone.cipher| <= COLUMN_BUFFER && |row.address.cipher| <= COLUMN_BUFFER
  }

  // What the statements of insertData, updateData and deleteData leave behind.
  function WithoutTokens(inverted: set<Token>, id: int): set<Token> {
    set t | t in inverted && t.id != id
  }

  function AfterInsert(c: Crypto, t: Tables, id: int, row: Row, data: Plain, idxKey: Bytes): Tables {
    Store(t.main[id := row], t.inverted + TokensOfRow(c, id, data, idxKey))
  }

  // UPDATE of an absent id changes no row, yet the tokens are inserted.
  function AfterUpdate(c: Crypto, t: Tables, id: int, row: Row, data: Plain, idxKey: Bytes): Tables {
    Store(if id in t.main then t.main[id := row] else t.main,
           WithoutTokens(t.inverted, id) + TokensOfRow(c, id, data, idxKey))
  }

  function AfterDelete(t: Tables, id: int): Tables {
    Store(t.main - {id}, WithoutTokens(t.inverted, id))
  }

  // ---- The same column by column ----

  // The pairs of neighbouring bytes, in order; a one-byte text stands for itself.
  lemma BigramsAre(text: Bytes)
    ensures |SplitBigram(text)| == if |text| <= 1 then |text| else |text| - 1
    ensures |text| == 1 ==> SplitBigram(text) == [text]
    ensures forall i :: 0 <= i < |text| - 1 ==> SplitBigram(text)[i] == [text[i], text[i + 1]]
  {
  }

  // The hash is that of a pair of neighbours, or of a text of one byte.
  ghost predicate HashesBigram(c: Crypto, hash: Bytes, text: Bytes, key: Bytes) {
    || (|text| == 1 && hash == HmacHex(c, text, key))
    || exists i :: 0 <= i < |text| - 1 && hash == HmacHex(c, [text[i], text[i + 1]], key)
  }

  ghost predicate IsTokenOf(c: Crypto, t: Token, id: int, data: Plain, key: Bytes) {
    && t.id == id
    && (t.field == Name ==> HashesBigram(c, t.hash, data.name, key))
    && (t.field == Phone ==> HashesBigram(c, t.hash, data.phone, key))
    && (t.field == Address ==> HashesBigram(c, t.hash, data.address, key))
  }

  // What the index receives for one text.
  lemma TokenIff(c: Crypto, t: Token, id: int, f: Field, text: Bytes, key: Bytes)
    ensures t in TokensFor(c, id, f, text, key) <==> t.id == id && t.field == f && HashesBigram(c, t.hash, text, key)
  {
    var tokens := SplitBigram(text);
    BigramsAre(text);
    if t in TokensFor(c, id, f, text, key) {
      var i :| 0 <= i < |tokens| && t.hash == HashTokens(c, tokens, key)[i];
      assert |text| > 1 ==> tokens[i] == [text[i], text[i + 1]];
    }
    if t.id == id && t.field == f && HashesBigram(c, t.hash, text, key) {
      if |text| == 1 {
        assert HashTokens(c, tokens, key)[0] == t.hash;
      } else {
        var i :| 0 <= i < |text| - 1 && t.hash == HmacHex(c, [text[i], text[i + 1]], key);
        assert HashTokens(c, tokens, key)[i] == t.hash;
      }
    }
  }

  // And for one row.
  lemma RowTokenIff(c: Crypto, t: Token, id: int, data: Plain, key: Bytes)
    ensures t in TokensOfRow(c, id, data, key) <==> IsTokenOf(c, t, id, data, key)
  {
    TokenIff(c, t, id, Name, data.name, key);
    TokenIff(c, t, id, Phone, data.phone, key);
    TokenIff(c, t, id, Address, data.address, key);
  }

  // The three columns of a value: its encryption, its hash, and the hash of the former.
  ghost predicate SealsCell(c: Crypto, cell: Cell, text: Bytes, encKey: Bytes, idxKey: Bytes, tagKey: Bytes,
      iv: Block) {
    && cell.cipher == Sealed(c, text, encKey, iv) && cell.blind == HmacHex(c, text, idxKey)
    && cell.tag == HmacHex(c, cell.cipher, tagKey)
  }

  ghost predicate SealsRow(c: Crypto, row: Row, data: Plain, encKey: Bytes, idxKey: Bytes, tagKey: Bytes, version: int,
      ivs: Vectors) {
    && row.encVersion == version
    && SealsCell(c, row.name, data.name, encKey, idxKey, tagKey, ivs.name)
    && SealsCell(c, row.phone, data.phone, encKey, idxKey, tagKey, ivs.phone)
    && SealsCell(c, row.address, data.address, encKey, idxKey, tagKey, ivs.address)
  }

  // What the index holds after the tokens of a row replaced those it had, if any.
  ghost predicate TokensReplaced(c: Crypto, before: set<Token>, after: set<Token>, id: int, data: Plain, key: Bytes) {
    forall t :: t in after <==> if t.id == id then IsTokenOf(c, t, id, data, key) else t in before
  }

  ghost predicate TokensAdded(c: Crypto, before: set<Token>, after: set<Token>, id: int, data: Plain, key: Bytes) {
    forall t :: t in after <==> t in before || IsTokenOf(c, t, id, data, key)
  }

  ghost predicate TokensRemoved(before: set<Token>, after: set<Token>, id: int) {
    forall t :: t in after <==> t in before && t.id != id
  }

  lemma InsertedTokens(c: Crypto, t: Tables, id: int, row: Row, data: Plain, key: Bytes)
    ensures TokensAdded(c, t.inverted, AfterInsert(c, t, id, row, data, key).inverted, id, data, key)
  {
    forall x ensures x in TokensOfRow(c, id, data, key) <==> IsTokenOf(c, x, id, data, key) {
      RowTokenIff(c, x, id, data, key);
    }
  }

  lemma UpdatedTokens(c: Crypto, t: Tables, id: int, row: Row, data: Plain, key: Bytes)
    ensures TokensReplaced(c, t.inverted, AfterUpdate(c, t, id, row, data, key).inverted, id, data, key)
  {
    forall x ensures x in TokensOfRow(c, id, data, key) <==> IsTokenOf(c, x, id, data, key) {
      RowTokenIff(c, x, id, data, key);
    }
  }
}
