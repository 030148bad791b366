# SecSearch, verified

SecSearch keeps personal data encrypted in MySQL and still answers exact and substring
queries on it. Each row of `sensitive_data` holds three fields; a field has an SM4
ciphertext, a keyed hash of its value (the blind index) and a keyed hash of its
ciphertext (the tag). The table `fuzzy_inverted` maps keyed hashes of the field's
bigrams to rows. Encryption, index and tag keys are versioned: rotation adds versions,
queries hash the keyword under every index-key version, and resumable tasks rebuild the
indexes of old rows under the current key.

The project models this system in Dafny and proves what the parts promise each other.
SM4 is any keyed permutation of 16-byte blocks with an inverse and HMAC-SM3 is any
function of key and data, so nothing here depends on a cipher or hash being good. Where a
collision would matter, the statement names the texts whose hashes must differ: always
finitely many, of the store or the keyword, so a hash of fixed length can meet it.

    dafny verify dfyconfig.toml

## The main results

* **Search is a scan, and exactly when.** Runs are arbitrary sequences of inserts, updates,
  deletes, rotations, rebuilds and restarts, each of which may fail anywhere; they begin at
  the first start of the program (`Runs.StartSatisfiesInv`) or in any state that satisfies
  the invariant, and every event keeps it (`Lifecycle.NextKeepsInv`). After every run exact
  search returns the rows whose field equals the keyword, ascending and once each, for all
  keywords of two bytes or more, if and only if no value has more than 2031 bytes, the blind
  indexes are intact and the rows are sound (`Runs.ExactSearchInEveryRun`). Rows are sound
  when they read back; where every row has a value one can ask for, only then. The indexes
  are intact when no live field is left rewritten from another text than its value and no key
  of a blind index was lost; where those other texts and keys give other hashes than the
  values have, only then (`Runs.IntactIffNothingBroken`, `Runs.ExactSearchIffNothingBroken`).
* **Fuzzy search** is the substring scan, for all keywords of two bytes or more whose bigrams
  have distinct hashes, if and only if no value has more than 2031 bytes, every keyword a row
  contains is indexed for it and the rows are sound (`Runs.FuzzySearchInEveryRun`); every
  keyword is indexed when nothing is pending. While the rows read back, a query for such a
  keyword returns no row without it and misses only rows that are pending, after a failure or
  an unsafe rebuild, and rows from the first long value on (`Runs.FuzzyKeywordInEveryRun`). A
  keyword in which a bigram repeats finds nothing (`Exactness.RepeatFindsNothing`), and
  `Exactness.FuzzyKeywordIff` is the exact condition for one keyword.
* **Rebuilds** decrypt every row with the current key, whatever the row's version. After a
  finished one exact search is right if and only if no value is too long, every hash it wrote
  is a hash of the value, the other blind indexes were right and the rows are sound. In an
  intact store whose opened texts do not collide with the values, the condition on the rebuild
  is that the key rejected each ciphertext of the range or opened it to the value
  (`Runs.RebuildIsRightIff`). Fuzzy search is right in a store with nothing pending if each
  opened text holds the bigrams of the value, and where those do not collide with others of
  the text only then (`Runs.FuzzyRebuildIsRightIff`). Rows that are all at the current version
  are safe (`Runs.CurrentRangeIsSafe`). `Counterexamples.StaleRebuildExample` is a run without
  any failure that goes wrong.
* **Failed rotations.** In the menu they end the program, and do no harm: over all such runs no
  row is mislabelled, every row reads back and the key history is append-only
  (`Sessions.MenuFailuresMislabelNothing`, `Sessions.SearchUnderMenuFailures`,
  `Sessions.HistoryIsAppendOnly`). The timer survives its failures, and what is inserted then
  is sealed by one key and labelled with another. In a store without marks, when the inserted
  row has a value one can ask for, both searches are right afterwards if and only if no value
  has more than 2031 bytes and the new key rejects each inserted ciphertext or opens it to the
  value (`Failures.SearchAfterTimedFailureIff`); after a restart, if and only if no value has
  more than 2031 bytes and the new version was not saved or its key opens the values
  (`Failures.SearchAfterRestartIff`). `Counterexamples.MislabelledInsertExample` is a run that
  goes wrong. A rebuild after such a failure hashes under an index key that was never saved:
  after the next start its rows are lost to exact search, although it opened their values
  (`Counterexamples.LostIndexKeyHarms`).
* **The imperative program does this.** `QueryService` runs the source's loops, the
  decryption pipeline included, and is proved equal to the search functions;
  `Application.App` runs the commands of `main.cpp` and is proved to take exactly the
  steps of `Lifecycle.Next`. What a command leaves or returns is said column by column besides:
  the tokens of an insert, update or delete, the column a rebuild's code names, the saved keys of
  a rotation, the substring of a fuzzy answer, and the bounds of ten requests, two bytes and
  10000 candidates at which a query is refused.
* **Every schedule of the pipeline** gives the sequential map in exactly 4n moves, loses
  no wake-up, cannot deadlock and ends (`Pipeline`).
* **A rebuild may crash before any write**, and a refused progress write ends its attempt.
  However often either happens, resuming until the task finishes leaves the rows, tokens and
  counters of one uninterrupted pass, if all rows of the range fit the fetch buffers and MySQL
  refuses no statement of a record. In any case the counters of every checkpoint add up to the
  rows up to its mark if and only if these fit (`Rebuild.CheckpointTruth`).
* **Keys** are only ever appended between restarts, a restart recovers them exactly when every
  version was saved (`Keys`, `Runs`).
* **Codecs.** CBC with PKCS#7 padding and hexadecimal framing round-trips; base64 is
  compared with RFC 4648, including where the encoder departs from it.

## Layout

| file | what it models |
|---|---|
| Common, Ordering | byte strings, results; ascending enumerations |
| Hex, Base64, Sm4 | the codecs of `utils.cpp`, the cipher framing of `sm4_cipher.cpp` |
| Tables, Database, Dao | rows and tokens; a database session and `Transaction`; `dao.cpp` |
| Keys | `key_manager.cpp` |
| Pipeline, BatchDecryptor | the step system of the threads, and the class whose sections are its steps |
| Search, QueryService, RateLimiter | query answers as functions; `query_service.cpp` |
| Answers | every answer column by column, and when a query is refused |
| Exactness, AnyStore | when the answers are those of a scan: under conditions one by one, and in any store at all |
| Reindex, Rebuild | the effect of a rebuild on tables; `index_rebuilder.cpp` with crashes |
| Lifecycle, Runs | states, events and the invariant; what holds in every run |
| Failures, Sessions | what failures do to later queries; the runs the program can take |
| Counterexamples | concrete runs that go wrong |
| Application | the commands of `main.cpp` as a class over the others |

## How failures appear

A parameter `failAt` numbers the steps of a write; the step with that number fails as the
source would (an exception, a refused statement). A rebuild has a `budget` of writes that
still reach the database before the process dies. MySQL may refuse a statement of a record
unless the rebuild is `reliable`, and the record fails; it may refuse a write of the task's row
unless the rebuild is `tracked`, and an exception that the menu catches ends the attempt. What an insert, an update, a rotation
or a rebuild leaves behind is then a function of these. `Lifecycle.World` carries two
histories that the program does not keep: the last written values, and marks. A row is
`mislabelled` when the key of its label did not open it to its value; a field is `broken`
when a rebuild computed its blind index from another text, `orphaned` when its blind index
stands under an index key that a restart lost, and `pending` when its tokens may not all be
there. A broken field's mark keeps that text and the key, an orphaned one's the lost key. Writing the row again clears its marks, and a rebuild that opens the value clears the
last three (`Runs.RebuildRepairs`). The marks restrict no event: they only say what the
queries can promise.

## Where the code surprises

* `insertData` writes the row before it opens its transaction: a failed insert leaves a
  row that exact search finds and fuzzy search may miss, until a rebuild covers it.
* The result of `COUNT(DISTINCT token_hash) = n` is compared with the number of bigrams,
  repeated ones included: a keyword such as "aaa" finds nothing.
* Ciphertexts are fetched into 4096-byte buffers, and a truncated row ends the fetch loop:
  a row with a value of more than 2031 bytes is lost, and so are the rows after it. In a
  rebuild it hides the rest of its batch.
* `updateData` of an absent id succeeds and writes tokens for it; they are harmless.
* The tag is checked under the tag-key version with the number of the row's encryption
  version; when it fails, the row is decrypted without a tag check.
* When the timer's rotation fails, the globals stay old while the manager's versions are new:
  rows are then sealed by one key and labelled with another. A restart undoes the failure
  itself (`Failures.RestartAfterFailure`), but gives the lost version's number to the next key
  (`Keys.VersionReused`).
* When one type has no key at the start, version 1 of all three types is overwritten.
* `base64Encode` pads the last group wrongly unless it has two bytes.

## Model

| member | source | states |
|---|---|---|
| Hex.BinToHex | src/crypto/utils.cpp:87-95 | the loop writes two lower-case digits per byte |
| Hex.HexToBin | src/crypto/utils.cpp:98-113 | odd length and foreign characters are rejected, in that order; otherwise the decoded bytes |
| Hex.HexRoundTrip | src/crypto/utils.cpp:87-113 | decoding undoes encoding for all byte strings |
| Hex.HexCanonical | src/crypto/utils.cpp:87-113 | encoding what was decoded gives the text in lower case |
| Hex.ToHexInjective | src/crypto/utils.cpp:87-95 | different byte strings have different texts |
| Hex.DigitsOfByte | src/crypto/utils.cpp:87-95 | character 2i is the digit of the high half of byte i, character 2i + 1 that of the low half, of "0123456789abcdef" |
| Hex.HexErrors | src/crypto/utils.cpp:98-113 | which characters are digits, and which of the two errors a text gives |
| Base64.Base64Encode | src/crypto/utils.cpp:18-40 | the loop computes the recursive description of the text it writes |
| Base64.Base64Decode | src/crypto/utils.cpp:49-84 | letters up to the first '=' are decoded, a foreign character before it is an error, a lone last letter is dropped |
| Base64.ReadGroup | src/crypto/utils.cpp:55-68 | the inner loop takes up to four letters and stops at '=' or the end |
| Base64.WriteGroup | src/crypto/utils.cpp:71-81 | two to four values give one to three bytes |
| Base64.DecodeInvertsRfc4648 | src/crypto/utils.cpp:49-84 | decoding undoes the standard encoding (section 4 of RFC 4648) of all byte strings |
| Base64.EncodeThenDecode | src/crypto/utils.cpp:18-84 | what the pair returns for every input: unchanged, one zero byte more, or the last byte lost |
| Base64.EncodeIsFaithfulIff | src/crypto/utils.cpp:36-37 | the encoder is invertible, and standard, exactly on the empty string and lengths that are 2 modulo 3 |
| Base64.DecodeFailsIff | src/crypto/utils.cpp:49-84 | decoding fails exactly when a character that is no letter comes before the first '=' |
| Base64.AlphabetIs | src/crypto/utils.cpp:13-16 | the 64 letters in their order, and no others |
| Base64.GroupIs | src/crypto/utils.cpp:27-81 | three bytes and four values are the same 24 bits |
| Base64.UnpackedLength | src/crypto/utils.cpp:55-81 | n values give 6n / 8 bytes, so a lone last one gives none |
| Base64.TestVectors | src/crypto/utils.cpp:18-40 | the reference encoding gives vectors of section 10 of RFC 4648 |
| Sm4.UnpadUndoesPad | src/SecSearch_PerfCompare.cpp:127-133 | removing the padding of section 6.3 of RFC 5652 undoes adding it |
| Sm4.CbcRoundTrip | src/crypto/sm4_cipher.cpp:26-149 | CBC (section 6.2 of NIST SP 800-38A) decryption undoes encryption over any block permutation |
| Sm4.CbcEncryptSplit | src/crypto/sm4_cipher.cpp:55-78 | writing the full blocks first and the padded block last is one CBC encryption |
| Sm4.Encrypt | src/crypto/sm4_cipher.cpp:26-85 | the key length is checked; the n + 16 buffer holds the result; the text is the hex of vector and ciphertext |
| Sm4.CipherFinal | src/crypto/sm4_cipher.cpp:64-78 | the padded last block always fits behind the full ones |
| Sm4.Decrypt | src/crypto/sm4_cipher.cpp:87-149 | each check in the source's order, then CBC decryption and padding removal |
| Sm4.OpenUndoesSeal | src/crypto/sm4_cipher.cpp:26-149 | decrypt undoes encrypt for every plaintext, key and vector |
| Sm4.SealedIs | src/crypto/sm4_cipher.cpp:26-85 | a sealed text is the digits of the vector and of 16-byte blocks; the block cipher turns each back into plaintext plus the block before it, byte by byte, and 16 - n % 16 bytes of that value fill the last |
| Sm4.OpenedIs | src/crypto/sm4_cipher.cpp:87-149 | for every text and key: the first failing check names the error, and what passes is the chained blocks without their padding |
| Sm4.UnpadIff | src/SecSearch_PerfCompare.cpp:127-133 | a text is accepted exactly when it ends in n bytes n for some n from 1 to 16, and loses exactly these |
| Sm4.HmacHexIs | include/crypto/hmac_sm3.h:14-19 | the keyed hash of data under key, in hexadecimal |
| Sm4.OpenedLength | src/crypto/sm4_cipher.cpp:55-84 | a text that opens to n bytes has 32 (n / 16 + 2) characters |
| Sm4.FitsBufferIff | src/database/dao.cpp:408-439 | a stored ciphertext fits the 4096-byte fetch buffer exactly up to 2031 bytes of plaintext |
| Sm4.SealedLength | src/crypto/sm4_cipher.cpp:55-84 | the same for whatever was sealed, whichever key opens it |
| Sm4.RemovePadding | src/SecSearch_PerfCompare.cpp:127-133 | the padding loop accepts exactly the texts that end in n bytes n, n from 1 to 16, and removes these |
| Sm4.GmsslDecryptRecord | src/SecSearch_PerfCompare.cpp:100-137 | tag check, hex, vector split, block check and padding removal, in order; a plaintext comes back exactly when the tag verifies and the ciphertext opens to it, an exception exactly when it verifies and is no hexadecimal text |
| Sm4.GmsslUndoesEncrypt | src/SecSearch_PerfCompare.cpp:100-137 | the hand-written decryption undoes `Sm4Cipher::encrypt` of every plaintext |
| Tables.SplitBigrams | src/database/dao.cpp:16-27 | the push_back loop yields the bigrams in order, a one-byte text itself, nothing for the empty one |
| Tables.HashAllTokens | src/database/dao.cpp:30-39 | one keyed hash per token, in order |
| Tables.BigramsAre | src/database/dao.cpp:16-27 | bigram i is bytes i and i + 1; one byte stands for itself, the empty text has none |
| Tables.RowTokenIff | src/database/dao.cpp:73-89 | which tokens a row puts into the index: per field, exactly the hashes of the bigrams of its value |
| Database.Transaction.constructor | src/database/transaction.cpp:10-14 | START TRANSACTION remembers the tables |
| Database.Transaction.Commit | src/database/transaction.cpp:24-30 | a second commit does nothing; a refused one leaves the transaction open |
| Database.Transaction.Rollback | src/database/transaction.cpp:33-37 | rollback restores the remembered tables unless committed |
| Database.Transaction.Close | src/database/transaction.cpp:17-21 | the destructor rolls back exactly what was not committed |
| Dao.DistinctCount | src/database/dao.cpp:311-314 | a list has as many distinct hashes as entries exactly when no two agree |
| Dao.FuzzyCandidateIff | src/database/dao.cpp:298-362 | the HAVING clause selects a row exactly when the hashes are pairwise distinct and all indexed for it |
| Dao.NoCandidateForRepeats | src/database/dao.cpp:298-362 | two equal hashes in the list leave no candidate, whatever the index holds |
| Dao.DAO.SealColumns | src/database/dao.cpp:47-71 | ciphertexts, blind indexes and tags of one row |
| Dao.DAO.InsertFuzzyIndex | src/database/dao.cpp:157-211 | INSERT IGNORE adds the entries; an empty list sends nothing |
| Dao.DAO.InsertData | src/database/dao.cpp:47-96 | for a failure at any step: no row, the row without its tokens, or everything; then the row holds for each column the encryption, hash and tag of its value, and the index gains exactly its tokens |
| Dao.DAO.UpdateData | src/database/dao.cpp:469-561 | for a failure at any step, commit included, the old tables or exactly the new ones: the tokens of the id are those of the new values, all others are as before, and no other row changes |
| Dao.DAO.UpdateStatements | src/database/dao.cpp:480-560 | tokens deleted, row rewritten if it exists, tokens inserted even if it does not |
| Dao.DAO.DeleteData | src/database/dao.cpp:564-591 | all or nothing: on success the row is gone and no token of the id is left, and every other row and token is as before |
| Dao.DAO.BatchSelectCiphers | src/database/dao.cpp:375-466 | three records per row in primary-key order, up to the first row that does not fit the buffers |
| Dao.RecordsOfAre | src/database/dao.cpp:446-462 | the three records of a row are its name, phone and address columns, ciphertext with its tag and the row's version |
| Dao.DAO.FetchRows | src/database/dao.cpp:446-462 | the fetch loop delivers whole rows in order and ends at the first that is truncated |
| Keys.RotationExtends | src/crypto/key_manager.cpp:269-302 | drawn or not, a rotation keeps every version and its key, and the current key is the drawn one if there is one |
| Keys.RotationAppends | src/crypto/key_manager.cpp:269-302 | rotation adds the next version, disables the old one and changes no stored key; the history stays sequential exactly when a key was drawn |
| Keys.LoadFromTruthful | src/crypto/key_manager.cpp:69-114 | loading a table that holds no wrong key gives those versions and the greatest as current |
| Keys.LoadedTruthful | src/crypto/key_manager.cpp:57-131 | the versions that come back are those saved, all enabled |
| Keys.LoadedIs | src/crypto/key_manager.cpp:69-114 | from any table at all: exactly the records that open come back, with their own status, and the greatest enabled version is current |
| Keys.OpenedKeyIs | src/crypto/key_manager.cpp:78-100 | a record opens when its ciphertext does under the master key, to 16 bytes |
| Keys.ReloadIff | src/crypto/key_manager.cpp:57-142 | reloading recovers keys and current version exactly when every version was saved; the disabled marks are lost |
| Keys.SavedComesBack | src/crypto/key_manager.cpp:57-142 | a fully saved history comes back and stays sequential |
| Keys.SaveAfterRotation | src/main.cpp:244-252 | rotate and save keeps every version saved |
| Keys.VersionReused | src/main.cpp:182-191 | the number of a version whose save failed is gone after a restart and names the next drawn key |
| Keys.RotationNotSaved | src/main.cpp:182-191 | a rotation whose save fails is not recovered by a reload |
| Keys.KeyManager.AddKeyVersion | src/crypto/key_manager.cpp:40-45 | a key of another length is refused; otherwise the version is set and nothing else changes |
| Keys.KeyManager.RotateKey | src/crypto/key_manager.cpp:269-302 | missing version, no randomness, or the next version with the drawn key: what each does to the history of its type and returns; the other types stay as they are |
| Keys.KeyManager.LoadRecord | src/crypto/key_manager.cpp:78-112 | a record that does not open to 16 bytes is skipped; an enabled greater version becomes current |
| Keys.KeyManager.LoadRecords | src/crypto/key_manager.cpp:73-114 | the loop over the records of one type |
| Keys.KeyManager.LoadFromDatabase | src/crypto/key_manager.cpp:57-131 | all three types are replaced by the records of the table that open; it fails exactly when a type has none |
| Keys.KeyManager.SaveToDatabase | src/crypto/key_manager.cpp:134-142 | the key is stored encrypted under the master key, or nothing is |
| Keys.KeyManager.GetAllIndexKeys | src/crypto/key_manager.cpp:259-267 | every version once, oldest first |
| Pipeline.InitInv | src/decrypt/batch_decryptor.cpp:169-192 | a call starts in a state that satisfies the invariant |
| Pipeline.StepKeepsInv | src/decrypt/batch_decryptor.cpp:84-166 | every step of every thread keeps the invariant |
| Pipeline.StepKeepsWakeUps | src/decrypt/batch_decryptor.cpp:84-166 | no wake-up is lost by any step |
| Pipeline.SubmitKeepsPlaces | src/decrypt/batch_decryptor.cpp:84-92 | submitting moves one index from unsubmitted to queued |
| Pipeline.TakeKeepsPlaces | src/decrypt/batch_decryptor.cpp:98-110 | taking moves one index from the queue to a worker |
| Pipeline.FinishKeepsPlaces | src/decrypt/batch_decryptor.cpp:112-137 | finishing moves one index to the result queue |
| Pipeline.CollectKeepsPlaces | src/decrypt/batch_decryptor.cpp:146-165 | collecting moves one index into its result slot |
| Pipeline.StepCounts | src/decrypt/batch_decryptor.cpp:84-207 | each move uses up one of the remaining moves, and the other steps between moves are bounded |
| Pipeline.AtEveryMoment | src/decrypt/batch_decryptor.cpp:84-207 | at every moment of every schedule each index is in exactly one place, no wake-up is lost, and the queue is within its capacity and first in, first out |
| Pipeline.NoDeadlock | src/decrypt/batch_decryptor.cpp:84-166 | while results are outstanding some thread can run without a spurious wake-up |
| Pipeline.RunKeepsInv | src/decrypt/batch_decryptor.cpp:84-207 | the invariant holds after every run, and moves are conserved |
| Pipeline.ReturnedIsComplete | src/decrypt/batch_decryptor.cpp:143-207 | when the call returns all results are in place and both queues are empty |
| Pipeline.EverySchedule | src/decrypt/batch_decryptor.cpp:169-207 | every schedule that returns gives the sequential map in exactly 4n moves and leaves the queues empty for the next call |
| Pipeline.SchedulesEnd | src/decrypt/batch_decryptor.cpp:84-207 | schedules without spurious wake-ups are bounded, and one that cannot go on has returned |
| BatchDecryptor.BatchDecryptor.DecryptOneRecord | src/decrypt/batch_decryptor.cpp:46-81 | tag key and encryption key looked up under the same version, tag compared before decryption: success exactly when all pass, the plaintext then and the error otherwise, with the record's id and version |
| BatchDecryptor.BatchDecryptor.PushTask | src/decrypt/batch_decryptor.cpp:84-92 | one section of pushTask is one step of the pipeline |
| BatchDecryptor.BatchDecryptor.WorkerTurn | src/decrypt/batch_decryptor.cpp:95-140 | one section of workerLoop is one step of the pipeline |
| BatchDecryptor.BatchDecryptor.CollectResult | src/decrypt/batch_decryptor.cpp:143-166 | one turn of collectResults is one step of the pipeline |
| BatchDecryptor.BatchDecryptor.OneTurn | src/decrypt/batch_decryptor.cpp:84-166 | whichever thread runs next, the invariant is kept and the rank falls |
| BatchDecryptor.BatchDecryptor.DecryptRecords | src/decrypt/batch_decryptor.cpp:169-207 | under an arbitrary schedule the call ends with results[i] the outcome of records[i]: its id and key version, success exactly when tag and ciphertext pass, the plaintext or the error |
| BatchDecryptor.BatchDecryptor.DecryptBatch | src/decrypt/batch_decryptor.cpp:210-254 | the outcomes of all rows read in batches, in order, each as for one record |
| BatchDecryptor.DecryptOneIs | src/decrypt/batch_decryptor.cpp:46-81 | what one record gives, in each of its cases |
| BatchDecryptor.BatchesAre | src/decrypt/batch_decryptor.cpp:223-235 | up to 32768 ids are one batch, the three columns of each readable row up to the first that is not |
| BatchDecryptor.ReadBatches | src/decrypt/batch_decryptor.cpp:223-235 | the reading loop delivers the records batch by batch |
| BatchDecryptor.BatchesDoNotMatter | src/decrypt/batch_decryptor.cpp:223-235 | for ascending ids of readable rows the batch size does not matter |
| Search.FullRowsAreTrue | src/query/query_service.cpp:160-225 | a fetch over rows that read back returns the last written values |
| Search.AnswerIs | src/query/query_service.cpp:76-225 | a query over rows that read back returns the delivered candidates that satisfy its filter, ascending, once each |
| Search.FetchedIff | src/database/dao.cpp:446-462 | a candidate is delivered exactly when no candidate up to it overflows the buffers |
| Search.AnyQueryIff | src/query/query_service.cpp:76-225 | in any store a query is the filter over all rows exactly when every such row is a candidate, is reached and reads back, and every other row that is reached decrypts to something the filter drops |
| Search.QueryIff | src/query/query_service.cpp:76-225 | while the rows read back, exactly when every such row is a candidate and is reached |
| Search.RightAnswerNeeds | src/query/query_service.cpp:76-225 | without any assumption: a right answer needs its rows to be candidates, to fit the buffers and to read back |
| Exactness.FieldValueIsTrue | src/query/query_service.cpp:35-47 | a row whose version names a key that opens it reads back as written, whatever the tags and the fallback key |
| Exactness.ReadableIff | src/database/dao.cpp:414-439 | a row fits the buffers exactly when its three values have at most 2031 bytes |
| Exactness.ExactQueryIff | src/query/query_service.cpp:262-293 | one exact query is the equality filter exactly when every row with the value has a known blind index and is reached; the hash need not be injective |
| AnyStore.AnyExactSearchIff | src/query/query_service.cpp:262-293 | in any store exact search is right for every field and keyword exactly when no value is longer than 2031 bytes, the blind indexes of all values one can ask for are known, their rows read back, and the other rows fail or falsify no query |
| AnyStore.ExactSoundIffReads | src/query/query_service.cpp:160-225 | where every row has a value of two bytes or more, the last two conditions are that all rows read back |
| Exactness.RightSearchNeeds | src/query/query_service.cpp:262-293 | without any assumption: right exact search needs every row with such a value indexed, within the buffers and reading back |
| Exactness.BigramsOccur | src/database/dao.cpp:16-27 | the bigrams of a substring are bigrams of the text |
| Exactness.CoveredIsCandidate | src/query/query_service.cpp:317-331 | a covered row with the keyword is a candidate under the version that covers it |
| Exactness.FuzzyQueryIff | src/query/query_service.cpp:296-359 | one fuzzy query is the substring filter exactly when every row with the keyword is a candidate under some version and is reached |
| Exactness.FuzzyAnswerFound | src/query/query_service.cpp:296-359 | the rows a fuzzy query returns |
| Exactness.RightFuzzyNeeds | src/query/query_service.cpp:296-359 | without any assumption: a right fuzzy answer needs its rows to be candidates, within the buffers and reading back |
| Exactness.TokenlessIsMissed | src/query/query_service.cpp:317-331 | a row without tokens is missing under every keyword it contains |
| Exactness.LongValueIsMissed | src/database/dao.cpp:446-462 | a row with a value of more than 2031 bytes is missing under every keyword it contains |
| Exactness.FuzzyIsScan | src/query/query_service.cpp:296-359 | fuzzy search is the substring filter when the rows it should find are covered |
| Exactness.FoundAreWanted | src/query/query_service.cpp:296-359 | with rows uncovered, fuzzy search may miss those and nothing else |
| Exactness.RepeatFindsNothing | src/query/query_service.cpp:307-331 | a keyword in which a bigram repeats finds nothing |
| AnyStore.AnyFuzzySearchIff | src/query/query_service.cpp:296-359 | in any store fuzzy search is right for every field and distinct-hash keyword exactly when no value is longer than 2031 bytes, every keyword a row contains is indexed for it under one version, the rows one can ask for read back, and the others fail or falsify no query |
| AnyStore.CoveredIsFindable | src/query/query_service.cpp:317-331 | covered rows have all their keywords indexed |
| Exactness.FuzzyKeywordIff | src/query/query_service.cpp:296-359 | over a covered store and collisions aside, one fuzzy query is right exactly when nothing contains the keyword, or no bigram of it repeats and every row that contains it is reached |
| Exactness.RepeatedBigramExample | src/query/query_service.cpp:307-331 | a row with the value "aaa" is not found under "aaa" |
| QueryService.QueryService.DecryptFieldWithVersion | src/query/query_service.cpp:35-47 | the row's version first; the fallback when that is absent or fails |
| QueryService.QueryService.GroupByRow | src/query/query_service.cpp:96-113 | the grouping loop recovers the stored columns of every fetched row |
| QueryService.QueryService.CollectRecords | src/query/query_service.cpp:116-131 | every non-empty ciphertext of every row, and nothing else |
| QueryService.QueryService.CacheResults | src/query/query_service.cpp:160-168 | the cache holds the batch results of exactly the fields that decrypted |
| QueryService.QueryService.BuildRow | src/query/query_service.cpp:178-202 | cached value or single decryption, per field |
| QueryService.QueryService.FetchRecords | src/query/query_service.cpp:76-225 | the whole of fetchFullRecords, pipeline included, equals the fetch function and filter |
| QueryService.QueryService.BlindHashes | src/query/query_service.cpp:273-283 | the keyword's hashes under all index-key versions |
| QueryService.QueryService.FuzzyCandidateIds | src/query/query_service.cpp:307-331 | the union of the candidates over all versions |
| QueryService.QueryService.DropCollisions | src/query/query_service.cpp:342-358 | the final filter keeps exactly the records whose field is something, the keyword, and something |
| QueryService.QueryService.ExactQuery | src/query/query_service.cpp:262-293 | rate limit, keyword length, candidate limit, in order; then the exact answer. Refused exactly with ten accepted requests in the last second, with fewer than two bytes, with more than 10000 candidates, so never for the last reason in a store of at most 10000 rows; what is returned has the keyword as its field |
| QueryService.QueryService.FuzzyQuery | src/query/query_service.cpp:296-359 | rate limit, keyword length, candidate limit, in order; then the fuzzy answer. Refused exactly as an exact query is, and never for too many candidates while the index holds at most 10000 ids; what is returned has the keyword in its field |
| QueryService.QueryService.NewPipeline | src/query/query_service.cpp:136 | four workers and a queue of 32768 |
| QueryService.ExactOutcomeIs | src/query/query_service.cpp:262-293 | what an exact query past the rate limit refuses and returns, in any store |
| QueryService.FuzzyOutcomeIs | src/query/query_service.cpp:296-359 | the same for a fuzzy query |
| Answers.ContainsIff | src/query/query_service.cpp:347 | find succeeds exactly on texts that are something, the keyword, and something |
| Answers.FiltersAre | src/query/query_service.cpp:342-358 | which column each filter looks at, and for what |
| Answers.ExactAnswerRecords | src/query/query_service.cpp:204-222 | whatever the store holds, an exact answer is rows of it, ascending, once each, whose column is the keyword |
| Answers.FuzzyAnswerRecords | src/query/query_service.cpp:338-358 | a fuzzy answer is such rows whose column has the keyword in it |
| Answers.BigramsMakeCandidates | src/query/query_service.cpp:307-331 | a row with all bigrams of a keyword is a candidate for it |
| Answers.CandidateIsDropped | src/query/query_service.cpp:338-358 | and is not returned if it reads back without the keyword in it |
| Answers.BigramsAreNotEnough | src/query/query_service.cpp:338-358 | "bcab" is a candidate for "abc" and not returned |
| Answers.EmptyField | src/query/query_service.cpp:178-202 | an empty ciphertext is an empty value and no error |
| Answers.FetchErrors | src/query/query_service.cpp:35-47 | no failed decryption is reported as one of the refusals |
| Answers.CandidateCount | src/query/query_service.cpp:236-243 | no more candidates than rows, or than ids in the index |
| RateLimiter.RateLimiter.CheckFrequencyLimit | src/query/query_service.cpp:246-259 | a request is rejected exactly when ten accepted ones lie in the second up to it, of the whole history, and only accepted ones are recorded |
| RateLimiter.AcceptsIff | src/query/query_service.cpp:246-259 | the count of the reference is the number of requests in that second, and the bound is ten |
| RateLimiter.RateLimiter.PopOld | src/query/query_service.cpp:250-253 | popping leaves exactly the suffix of the history that is not older than the cutoff |
| RateLimiter.WindowBound | src/query/query_service.cpp:246-259 | over any run with a non-decreasing clock every closed one-second window holds at most ten accepted requests |
| Reindex.BlindUpdateKeeps | src/audit/index_rebuilder.cpp:53-88 | the first statement of a record leaves a state between and finished rows finished |
| Reindex.TokenDeleteKeeps | src/audit/index_rebuilder.cpp:90-115 | so does the second |
| Reindex.TokenInsertKeeps | src/audit/index_rebuilder.cpp:117-157 | and the third |
| Reindex.RowRebuiltKeeps | src/audit/index_rebuilder.cpp:18-165 | the three together finish the record from any state between |
| Reindex.DoneIsUnique | src/audit/index_rebuilder.cpp:167-266 | a finished state is determined by where the rebuild started |
| Reindex.PassIsDone | src/audit/index_rebuilder.cpp:209-236 | an uninterrupted pass finishes its rows |
| Reindex.FinishedIsFullPass | src/audit/index_rebuilder.cpp:167-266 | any finished interleaving of interrupted attempts equals one uninterrupted pass |
| Reindex.PassByCode | src/audit/index_rebuilder.cpp:27-157 | a finished rebuild for code 1, 2 or 3 rewrites, in each row of the range whose name, phone or address ciphertext opens, the blind index of that column and the tokens of that field from what was opened; every other column and token is as before, and any other code changes nothing |
| Reindex.BetweenByCode | src/audit/index_rebuilder.cpp:27-157 | one that was cut anywhere has touched nothing else |
| Reindex.DoneByCode | src/audit/index_rebuilder.cpp:27-157 | the same for one finished record |
| Reindex.CurrentRowsAreSafe | src/audit/index_rebuilder.cpp:25-40 | rows at the current encryption version are decrypted to their values |
| Reindex.NothingWrongIff | src/audit/index_rebuilder.cpp:25-40 | no field is rewritten from another text exactly when the current key rejects every ciphertext of the range or opens it to its value |
| Reindex.BetweenStaysRead | src/audit/index_rebuilder.cpp:64-155 | at every intermediate statement the rows read back as before |
| Reindex.BetweenStaysKnown | src/audit/index_rebuilder.cpp:64-88 | at every intermediate statement the blind index of a safe row stays known |
| Reindex.SafeRebuildKeepsExactSearch | src/audit/index_rebuilder.cpp:43-157 | over rows that read back and fit the buffers a safe rebuild, finished or cut anywhere, changes the answer of no exact query, collisions or not |
| Reindex.SafeRebuildKeepsEveryExactAnswer | src/audit/index_rebuilder.cpp:43-157 | in any store whose blind indexes of the field are known, readable or not, it changes none whose keyword does not collide with another stored value |
| Reindex.SafeRebuildKeepsFuzzySearch | src/audit/index_rebuilder.cpp:43-157 | over covered rows that read back and fit the buffers a finished safe rebuild changes the answer of no distinct-hash fuzzy query |
| Reindex.SafeRebuildFuzzyIff | src/audit/index_rebuilder.cpp:43-157 | with values too long for the buffers in the store, it leaves the answer as it was exactly when the same rows with the keyword are reached before and after |
| Reindex.RebuiltBlindIff | src/audit/index_rebuilder.cpp:64-88 | after a rebuild a blind index is known exactly when what was written is a hash of the value, or nothing was written and it was known before |
| Reindex.RebuiltExactIff | src/audit/index_rebuilder.cpp:181-211 | in any store of sized rows exact search is right after a rebuild exactly when values are short, all blind indexes it leaves are hashes of the values and the rows are sound; from intact indexes, where no opened text collides with the value, the second says that the current key rejected each ciphertext or opened it to the value |
| Reindex.UnsafeRowIsLost | src/audit/index_rebuilder.cpp:181-211 | a row rewritten from another text whose hash is none of the value's makes exact search wrong, whatever else the store holds |
| Reindex.RebuiltFuzzyIff | src/audit/index_rebuilder.cpp:117-157 | a rewritten row is a candidate for a keyword exactly when the opened text has all its bigrams, if no bigram of the one collides with another of the other |
| Reindex.RebuiltRowIsFoundIff | src/audit/index_rebuilder.cpp:117-157 | under the same condition on value and opened text, it is a candidate for all keywords it contains exactly when the opened text has all bigrams of its value |
| Reindex.RebuiltFindableIff | src/audit/index_rebuilder.cpp:117-157 | after a rebuild a covered row is indexed for all keywords it contains if it was not rewritten or the opened text has the bigrams of its value, and where these do not collide only then |
| Reindex.RebuiltFuzzySearchIff | src/audit/index_rebuilder.cpp:181-211 | after a rebuild of a covered store fuzzy search is right exactly when no value is longer than 2031 bytes, every keyword a row contains is indexed and the rows are sound; the second holds if every opened text has the bigrams of its value, and where these do not collide only then |
| Rebuild.TallyIff | src/audit/index_rebuilder.cpp:212-217 | whatever was passed over or refused, the two counters add up to the rows of the range up to the mark exactly when these all fit the buffers |
| Rebuild.CountsAddUp | src/audit/index_rebuilder.cpp:212-217 | rows that decrypt and rows that do not add up to the rows |
| Rebuild.GoodIff | src/audit/index_rebuilder.cpp:25-40 | a record counts as rebuilt exactly when its code names no ciphertext or one that opens |
| Rebuild.BatchIsWhole | src/database/dao.cpp:964-977 | the LIMIT never truncates a batch |
| Rebuild.BatchRowsAre | src/database/dao.cpp:964-1050 | a batch delivers, in ascending order, exactly the rows of its stretch up to the first that does not fit the buffers |
| Rebuild.UnreadableHidesBatch | src/audit/index_rebuilder.cpp:201-206 | a first row that overflows the fetch buffers makes its whole batch look empty, so the loop passes over it |
| Rebuild.IndexRebuilder.RebuildOneRecord | src/audit/index_rebuilder.cpp:18-165 | skip, failure and success of one record, with a crash ahead of any of its statements or MySQL refusing it; on success the column and the tokens that the code names are those of the opened text |
| Rebuild.IndexRebuilder.RunStatements | src/audit/index_rebuilder.cpp:53-157 | the three statements in their order, each of which may be the last or be refused; success means all three were done |
| Rebuild.IndexRebuilder.UpdateProgress | src/database/dao.cpp:862-903 | one progress write; or none, when the process dies first or MySQL refuses it |
| Rebuild.IndexRebuilder.ProcessRecord | src/audit/index_rebuilder.cpp:209-224 | one turn of the record loop: a progress write exactly when the counters add up to a multiple of ten, of this record's id and counters |
| Rebuild.IndexRebuilder.RunBatch | src/audit/index_rebuilder.cpp:208-234 | the record loop: the counters keep their worth and the rows up to the current id are finished |
| Rebuild.IndexRebuilder.FetchBatch | src/database/dao.cpp:964-1050 | the records of a batch with their ciphertexts, ascending, up to the first that does not fit |
| Rebuild.IndexRebuilder.NextBatch | src/audit/index_rebuilder.cpp:196-237 | one turn of the batch loop goes forward, within the range |
| Rebuild.IndexRebuilder.RunBatches | src/audit/index_rebuilder.cpp:187-237 | the batch loop terminates, visits every remaining row once in ascending order and ends at endId |
| Rebuild.IndexRebuilder.CreateTask | src/database/dao.cpp:778-811 | a new task, unless its INSERT is refused, is resumable from the start of its range |
| Rebuild.IndexRebuilder.Finish | src/audit/index_rebuilder.cpp:239-263 | status 2 exactly when no row was counted as failed, otherwise 3, or 1 if MySQL refused that statement, which is passed over |
| Rebuild.IndexRebuilder.MarkFailed | src/audit/index_rebuilder.cpp:240-259 | the statement that sets status 3 may be refused without an exception; the task's row then stays as it was |
| Rebuild.IndexRebuilder.Attempt | src/audit/index_rebuilder.cpp:177-265 | one attempt, a crash or a refused progress write included, leaves a state the next can resume from |
| Rebuild.IndexRebuilder.RunTask | src/audit/index_rebuilder.cpp:167-266 | unknown task, finished task, missing key, refused progress write, crash or completion; completion leaves the tables of one pass over the column its code names, if nothing was refused and all rows fit; all rows after the mark were visited exactly when all of them fit the buffers |
| Rebuild.IndexRebuilder.RunToCompletion | src/audit/index_rebuilder.cpp:167-275 | after any sequence of attempts that crashed or were refused a progress write the last one, unless it is refused one too, finishes all rows up to the first that does not fit; the counters add up exactly when all fit, and then the tables and counters are those of one uninterrupted pass if no statement of a record was refused |
| Rebuild.CheckpointTruth | src/audit/index_rebuilder.cpp:219-236 | at every progress write success plus fail is the number of rows up to the mark exactly when these all fit the buffers, and less otherwise |
| Rebuild.MarkNeverGoesBack | src/audit/index_rebuilder.cpp:177-236 | the mark never decreases over all attempts |
| Lifecycle.RotateKeepsKeys | src/main.cpp:243-271 | rotate, save, refresh keeps the three key histories usable, the table truthful and the globals among the keys |
| Lifecycle.RotateAllFailedKeepsKeys | src/main.cpp:178-207 | so does a rotation of all keys that fails at any draw or save |
| Lifecycle.RotateIs | src/main.cpp:243-271 | the type rotated has the next version with the drawn key, saved so that it opens to it, and as its global; the other types are untouched |
| Lifecycle.RotateFailedIs | src/main.cpp:243-271 | a failed rotation of one type touches neither table nor globals, nor the other types |
| Lifecycle.RotateAllFailedIs | src/main.cpp:178-197 | the types are drawn in the order encryption, index, tag, none is saved before all are drawn, and the saves come in that order |
| Lifecycle.RestartKeepsKeys | src/main.cpp:642-668 | so does a restart; it keeps exactly the saved versions, and the globals are current after it |
| Lifecycle.LongerHistory | src/crypto/key_manager.cpp:269-302 | a longer key history takes nothing away from a row |
| Lifecycle.WrittenOpensIff | src/main.cpp:372-376 | what is written opens under its label exactly when the label's key opens what the global key sealed, in particular while the two are in step |
| Lifecycle.WrittenRowInv | src/main.cpp:372-376 | what is written satisfies the invariant, in step or not: its blind indexes are known, and its tokens cover it if they got in |
| Lifecycle.PipelineAcceptsIff | src/decrypt/batch_decryptor.cpp:53-75 | a written field passes the pipeline's tag check later exactly when the tag key numbered like its encryption version verifies it, in particular when both versions were equal at the write; what passes is the value |
| Lifecycle.InsertKeepsInv | src/database/dao.cpp:47-96 | an insert, however far it got, keeps the invariant |
| Lifecycle.UpdateKeepsInv | src/database/dao.cpp:469-561 | an update keeps the invariant, of an absent id too |
| Lifecycle.DeleteKeepsInv | src/database/dao.cpp:564-591 | a delete keeps the invariant |
| Lifecycle.RebuildKeepsInv | src/audit/index_rebuilder.cpp:167-266 | a rebuild of any range keeps the invariant, finished or cut short anywhere |
| Lifecycle.RestartKeepsInv | src/main.cpp:642-668 | so does a restart, whatever was not saved before it |
| Lifecycle.NextKeepsInv | src/main.cpp:171-556 | every event keeps the invariant |
| Lifecycle.NextKeepsKeys | src/main.cpp:171-556 | no event but a restart takes a key away, and none changes one |
| Runs.RunKeepsInv | src/main.cpp:171-556 | the invariant holds after every run |
| Runs.CutStartIsFresh | src/main.cpp:655-661 | a crash between the three initial saves leaves a database on which the next start is a first start again |
| Runs.RegeneratedKeys | src/main.cpp:647-664 | a start that finds some type without keys makes version 1 of every type the initial key and leaves all other versions alone |
| Runs.StartSatisfiesInv | src/main.cpp:642-668 | a start on a database without rows, an earlier one cut short or not, satisfies the invariant, with the initial keys |
| Runs.InitialKeysAre | src/main.cpp:654-656 | sixteen bytes 0xA0, 0xB0 and 0xC0 |
| Sessions.MenuRunIsSteady | src/main.cpp:243-271 | over runs in which no failure of the timer is survived, whenever the program runs the histories are gapless, fully saved and in step with the globals |
| Sessions.HistoryIsAppendOnly | src/crypto/key_manager.cpp:269-302 | over such runs, restarts and failed rotations of the menu included, versions are 1 to current, the current one is enabled and no key ever changes |
| Runs.RunExtends | src/crypto/key_manager.cpp:269-302 | over every stretch of a run without restarts the history only grows, failed rotations or not |
| Runs.RestartRecoversIff | src/main.cpp:642-668 | stopping and starting at any moment of any run recovers keys and current version exactly when every version of the type was saved |
| Runs.RowsReadBack | src/query/query_service.cpp:76-225 | after every run every row that is not mislabelled reads back as last written |
| Runs.ExactSearchInEveryRun | src/query/query_service.cpp:262-293 | after every run exact search is the scan exactly when no value exceeds 2031 bytes, the blind indexes are intact and the rows are sound; rows that read back are sound, and none is unsound while none is mislabelled |
| Runs.IntactIffNothingBroken | src/audit/index_rebuilder.cpp:64-88 | the blind indexes are intact if no live field is left rewritten from another text or hashed under a lost key, and where those hashes are none of the values' only then |
| Runs.ExactSearchIffNothingBroken | src/query/query_service.cpp:262-293 | so after every run exact search is right if no value exceeds 2031 bytes, nothing is broken or orphaned and the rows are sound, and under the same condition on the marked fields only then |
| Runs.KnownAfterRestartIff | src/main.cpp:642-668 | after a restart a blind index is known exactly when it is the hash of the value under a version that was saved |
| Runs.RightRunNeeds | src/query/query_service.cpp:262-293 | after any run at all: if exact search is right, every row one can ask for fits, is indexed and reads back |
| Runs.RebuildIsRightIff | src/audit/index_rebuilder.cpp:167-266 | in any state of a run a finished rebuild leaves exact search right exactly when values are short, what it wrote are hashes of the values, the other indexes were right and the rows are sound; from intact indexes, where no opened text collides with its value, exactly when it was safe besides; rows that read back go on doing so |
| Runs.CurrentRangeIsSafe | src/audit/index_rebuilder.cpp:25-40 | a rebuild of rows that are all at the current encryption version, none mislabelled, is safe: what to check beforehand |
| Runs.UnsafeRebuildHarms | src/audit/index_rebuilder.cpp:167-266 | a rebuild that rewrites a row from another text makes exact search wrong in any state, unless the two texts collide |
| Runs.FuzzySearchInEveryRun | src/query/query_service.cpp:296-359 | after every run fuzzy search is the scan for all distinct-hash keywords exactly when no value exceeds 2031 bytes, every keyword a row contains is indexed and the rows are sound; with nothing pending the second holds |
| Runs.FuzzyKeywordInEveryRun | src/query/query_service.cpp:296-359 | while the rows read back, one fuzzy query returns no row without the keyword and misses only rows that are pending or behind a long value |
| Runs.FuzzyRebuildIsRightIff | src/audit/index_rebuilder.cpp:167-266 | after a finished rebuild of a store with nothing pending it is the scan if no value exceeds 2031 bytes, every opened text has the bigrams of its value and the rows are sound, and where bigrams of a value do not collide with others of its text only then |
| Runs.RebuildRepairs | src/audit/index_rebuilder.cpp:90-157 | a rebuild that opens the value makes the field found again by both searches, whatever happened to it before |
| Failures.FailedInsertIsMissed | src/database/dao.cpp:71-96 | a row whose tokens were rolled back is missed under every keyword it contains |
| Failures.GlobalsOutOfStep | src/main.cpp:182-197 | after a rotation of all keys that failed the globals are current exactly when every drawn key equals its predecessor |
| Failures.RestartAfterFailure | src/main.cpp:182-197 | a restart after a failed rotation loses no key and harms no row |
| Failures.BatchChangesNothing | src/query/query_service.cpp:160-202 | with the batch result or without, a field reads as a single decryption does |
| Failures.MislabelledRow | src/main.cpp:374-376 | when a row sealed by one key and labelled with another reads back, exactly, with either key as the fallback |
| Failures.WrittenReadsIff | src/main.cpp:372-376 | what is written at any moment of a run reads back in the session exactly when the current key rejects what the global key sealed or opens it to the value |
| Failures.WrittenReadsAfterRestartIff | src/main.cpp:642-668 | after a restart with that version saved it reads back exactly when the current key opens it to the value |
| Failures.MislabelledRowThrows | src/query/query_service.cpp:193-202 | one field that cannot be read fails every query that has the row among its candidates |
| Failures.InsertReadsIff | src/main.cpp:372-376 | after an insert all rows read back exactly when they did before and, for each field, the current key rejects what the global key sealed or opens it to the value |
| Failures.UpdateReadsIff | src/main.cpp:465-507 | the same for an update, but for what the row held before |
| Failures.SearchAfterTimedFailureIff | src/main.cpp:178-207 | in an unmarked store an insert of an askable value after a failure of the timer leaves both searches right exactly when values are short and what was written reads back |
| Failures.RestartAfterTimedFailureIff | src/main.cpp:642-668 | after the restart that follows all rows read back exactly when the new version was not saved or its key opens what was written |
| Failures.SearchAfterRestartIff | src/main.cpp:642-668 | and both searches are right then exactly when values are short and that is so: the failure costs blind indexes and tokens nothing |
| Sessions.RestartIsSteady | src/main.cpp:178-207 | a failed rotation and a restart leave no gap in the versions and the globals in step |
| Sessions.MenuFailuresMislabelNothing | src/main.cpp:243-288 | over runs in which no failure of the timer is survived no row is ever mislabelled and no index key lost |
| Sessions.SearchUnderMenuFailures | src/main.cpp:243-288 | so in them every row reads back, and both searches are right exactly when values are short and the indexes are intact |
| Sessions.SearchInSmoothRuns | src/query/query_service.cpp:262-359 | if also every write succeeds and every rebuild finishes and is safe, exactly when no value exceeds 2031 bytes |
| Counterexamples.StaleRebuildHarms | src/main.cpp:313-356 | insert, rotate, rebuild: exact search is wrong if the new key opens the old ciphertext to another text that does not collide with the value |
| Counterexamples.StaleRebuildExample | src/main.cpp:313-356 | a library under which that happens, from the first start on |
| Counterexamples.MislabelledInsertHarms | src/main.cpp:178-207 | the timer draws a new encryption key and fails, an insert follows: exact search is wrong under the same condition |
| Counterexamples.MislabelledInsertExample | src/main.cpp:178-207 | and under the same library, from the first start on |
| Counterexamples.LostIndexKeyHarms | src/main.cpp:178-207 | the timer draws an index key and fails on the tag key, the menu rotates the encryption key, a row is inserted and rebuilt, the program restarts: the row's blind index is known exactly when its hash under the lost key equals one under a saved key, and exact search is right only then |
| Counterexamples.LostIndexKeyExample | src/main.cpp:178-207 | and under that library it is wrong, from the first start on |
| Counterexamples.ProgramTakesThem | src/main.cpp:682-715 | the program can take the three runs |
| Application.Start | src/main.cpp:634-668 | on any database: load the keys, or save version 1 of each type and load again; the loop is reached exactly when every type has a current key, and is after a first start, a first start cut short, or a restart |
| Application.App.constructor | src/main.cpp:670-690 | the loop begins in the state the start left |
| Application.App.InsertData | src/main.cpp:360-394 | an insert is one event of the life cycle, for a failure at any step; on success row and tokens are those of the values under the current globals, labelled with the manager's version |
| Application.App.UpdateData | src/main.cpp:465-507 | an update is one event; a non-positive id is refused; on success the tokens of the id are exactly those of the new values, and all others are as before |
| Application.App.DeleteData | src/main.cpp:509-548 | a delete is one event; a non-positive id is refused; on success neither the row nor a token of it is left, and nothing else changes |
| Application.App.RotateOne | src/main.cpp:243-271 | rotate, save, refresh is one event; a failure is one too, and ends the program; what each does to every type of key |
| Application.App.RotateAllKeys | src/main.cpp:178-207 | rotate all, save all, refresh all is one event; a failure at any of them is one too, which the timer survives and the menu does not; what was drawn, saved and refreshed of each type |
| Application.App.SaveAll | src/main.cpp:186-191 | the config table after the first saves |
| Application.OutcomeByCode | src/main.cpp:313-356 | which of the two a rebuild left, and its count |
| Application.App.BatchSize | src/main.cpp:328-329 | 100 ids where no positive size is named |
| Application.App.RebuildIndex | src/main.cpp:313-356 | range and batch-size guards; a rebuild of any range is one event; by its code, 1 to 3, a completed one leaves the blind index and tokens of that column of what was opened, everything else as before, and counts the rows with no ciphertext or one that opens; one cut short has touched nothing else; a refused write of the task or its progress throws and leaves the program running |
| Application.App.ExactQuery | src/main.cpp:396-428 | from any valid state: empty keyword, rate limit, length, candidate limit, and otherwise the scan exactly when every row with the value is indexed, reached and read and no other candidate gets in the way; refused and filtered exactly as the query service says |
| Application.IntactIsAnswered | src/main.cpp:396-428 | which is so when no failure touched the field, no value exceeds 2031 bytes and the rows read back |
| Application.App.FuzzyQuery | src/main.cpp:430-463 | from any valid state: empty keyword, rate limit, length, candidate limit, and otherwise the substring scan exactly under the same conditions; while the rows read back it misses only rows that are pending or behind a long value; refused and filtered exactly as the query service says |

## Left out

- SM4, SM3 and HMAC themselves, and the vendored `include/gmssl`, `include/hitls` and `include/mysql` headers: library calls, modelled as arbitrary functions. What decryption under a wrong key returns is unspecified.
- The library's own padding check: taken to be the one `gmsslDecryptRecord` writes out, as RFC 5652 has it.
- The MySQL client: preparing, binding, error texts, connection pool, reconnecting. A statement is its effect on a map or a set. Rows of an IN query are taken in primary-key order; the SQL ROLLBACK is taken to work.
- NULL ciphertext columns: the schema declares them NOT NULL, so the `isNull` tests of the fetch loops never fire.
- SELECT statements that MySQL refuses: a query, a batch or a task's row that cannot be read changes nothing in the database.
- `getPendingRebuildTask`: nothing calls it. `getRebuildTaskStatus` and the reading of keys (`dao.cpp:628-647`) fetch one-byte columns into uninitialised `int`s; the model reads the columns. The tags and the version that `getRecordsForRebuild` fetches are not used and not modelled.
- Integer widths of ids, versions and counters: 64-bit ids and 32-bit counters do not wrap here.
- Mutexes as such: a critical section is one step. `getEncryptionKey` returns a reference that outlives its lock; the model returns a value.
- Shutdown of the workers: the destructor sets `stop_` without the mutex, and calls that end by an exception in the middle of a batch.
- `stats_`, progress callbacks, audit logging, printing, menus, password input, the search for the key file, the rotation-time file and the 90-day threshold: they do not change rows, keys or answers. When a timed rotation happens is left to the caller of `RotateAllKeys`.
- `setKeyStatus`, `deleteKeyFromConfig`, `updateKeyStatusInConfig`, `loadKeys` and `CryptoService`: no modelled flow calls them.
- `buildFullRecord`, `queryByFuzzyKeyword`, and the `idxKey` and `tagKey` parameters of the queries: unused by the source.
- Benchmarks, tests and test-data generators, apart from `gmsslDecryptRecord`.
- BatchDecryptor.BatchDecryptor.DecryptBatch: reads all batches before it submits, where the source submits each batch before reading the next; the pipeline's schedules cover submission at any time.
- QueryService.QueryService.BlindHashes: a set stands for the sorted list without duplicates.
- Rebuild.IndexRebuilder.RunToCompletion: which rows after the first that does not fit are passed over depends on the batch boundaries, so on the batch size, and is not said; the tables are a state between.
- Lifecycle.NextKeepsInv: events are not tied to the order in which one session allows them, so the runs of `Runs` are a superset of the program's; `Sessions.ProgramRun` says which the program takes, and `Application.App.running` which commands can follow.
- Counterexamples.StaleRebuildExample: the library is a toy, so the run shows that neither an invertible block cipher nor a hash of fixed length without collisions on short texts rules the failure out; how likely it is under SM4 is not modelled.
