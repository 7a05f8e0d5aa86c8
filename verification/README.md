# Verified model of the Supra client codec and the Move state store

This project models the parts of the repository that compute something, and proves what they promise.

**Transactions.** A transaction payload is a Script (tag 0), an EntryFunction (tag 2) or a Multisig
(tag 3); a Multisig holds an address and, optionally, a second tagged payload. `Bcs.dfy` says what the
primitives of Binary Canonical Serialization look like as bytes, `Streams.dfy` has the growing output
buffer and the reading cursor, and `TypeTags.dfy` and `Payload.dfy` have the serializers and
deserializers, as methods on those two objects, each proved against a function on byte strings.
`PayloadLaws.dfy` proves the round trip with exact consumption, for any bytes that follow.
`CanonicalLaws.dfy` says exactly when decoding and encoding again gives back the bytes that were read.
`Transactions.dfy` has the raw transaction and the message that is signed. `Builders.dfy` and
`Arguments.dfy` have the entry functions the scripts build, and `Proposals.dfy` the hash under which a
multisig transaction is proposed and later executed. `WireForms.dfy` spells out, with the constants a
receiver expects, the bytes and names that leave the client, and `Utf8.dfy` which byte strings are
character strings.

**Submission.** `PayloadDict.dfy` is the recursive renderer that turns a transaction object into the
dictionary submitted as JSON. `PayloadDictLaws.dfy` proves that it loses exactly the hidden attributes.
`Submission.dfy` and `Authentication.dfy` prove which transactions can be submitted, what lies where
in the body, and that it reads back as the transaction, public key and signature. `Agreement.dfy` ties
the renderings together: equal dictionaries mean equal signed bytes.

**Multi-signatures.** `Bits.dfy` and `MultiSignature.dfy` have the bitmap encoder, its meaning bit by
bit, the reader that matches it, and exactly when the two undo each other.

**The state store.** `MoveStore.dfy` and `Genesis.dfy` have the write batch, the database shared by
every handle, and the genesis commit. `MoveStoreLaws.dfy` proves that the store refines a plain map.

Conventions:

- A Python exception or a Rust `Err` is a failure value (`Malformed`, `Raised` or `None`); kinds of
  error and their messages are not told apart. After a failed serialization the contents of the buffer
  are not described, since no caller looks at them.
- A reader takes the flag `strict`. The client's reader is the one with `strict` false: it accepts an
  over-long ULEB128 integer. The strict reader insists on the shortest form, as the section
  "ULEB128-Encoded Integers" of the BCS standard does.
- Character strings are their UTF-8 bytes, and byte strings that are not UTF-8 are refused where a
  string is read.
- SHA3-256, the resource account derivation, the text forms of addresses, keys and signatures, and the
  state key and value codecs are parameters. A property that needs one of them to keep two inputs apart,
  or to be undone by a parser, says so in its `requires`; a hash is only ever assumed not to collide on
  the two byte strings at hand.
- The clock, the chain id a node reports, and whether the disk fails are parameters.
- `Multisig` and `MultiSigTransactionPayload` define no equality, so a decoded multisig payload is never
  `==` to the original in Python (transaction_payload.py:27-30, 55-95). The round trips here are stated
  with equality of contents.

Two results are limits of the code rather than guarantees. The reader drops the tag inside a multisig
payload whatever it is, although its comment says it is always 0 (transaction_payload.py:68), so
`CanonicalLaws.PayloadReencodes` has that as one of its two conditions. And the dictionary keeps type
tags and script code as Python objects, so `Submission.TransactionSubmittable` shows that a transaction
gets through exactly when it carries an entry function or a multisig payload without type arguments.

## Model

| member | source | states |
|---|---|---|
| Bits.UlebBit | transaction_payload.py:51 | The ULEB128 writer behind every tag and length puts bits 7j to 7j+6 in byte j, sets the top bit on all bytes but the last, and never ends in a zero group that could be left out. |
| Bits.LittleEndianBit | propose_multisig_tx.py:17-18 | A fixed-width integer puts bits 8j to 8j+7 in byte j. |
| Streams.Serializer.Uleb128 | transaction_payload.py:51 | The loop that strips seven bits a time appends exactly the ULEB128 form, and raises exactly above 2^32 - 1. |
| Streams.Deserializer.Uleb128 | transaction_payload.py:37 | The loop over 7-bit groups, with its early exit on large values, returns and leaves what the recursive reader says, and never moves the cursor past the end. |
| Bcs.UlebRoundTrip | transaction_payload.py:37-51 | Reading back a written integer gives it and consumes exactly its bytes, whatever follows, for both readers. |
| Bcs.UlebReencode | transaction_payload.py:37-51 | What the strict reader accepts is byte for byte what the writer writes for the value read, and the client's reader agrees. |
| TypeTags.TypeTag.Serialize | transaction_payload.py:50-52 | Writing a type tag raises exactly when some length inside it exceeds 32 bits, and otherwise appends its wire form, however deeply it nests. |
| TypeTags.TypeTag.Deserialize | transaction_payload.py:40-42 | Reading a type tag ends on every input, consumes at least one byte when it succeeds, keeps the cursor in bounds, and returns what the wire form says. |
| TypeTags.Decode | transaction_payload.py:40-42 | Each tag read leaves strictly less input, which is what bounds the recursion through nested tags. |
| Payload.EntryFunction.Serialize | transaction_payload.py:61-64 | Writing an entry function raises exactly on a length above 32 bits and otherwise appends module, name, type arguments and arguments in that order. |
| Payload.EntryFunction.Deserialize | transaction_payload.py:69 | Reads the same four parts in order, refusing names that are not UTF-8. |
| Payload.ScriptArgument.Deserialize | transaction_payload.py:39-40 | Reads the variant byte and the argument it announces; unknown variants raise. |
| Payload.Script.Serialize | transaction_payload.py:50-52 | Code, type arguments and script arguments; raises exactly when a length or an integer does not fit. |
| Payload.Script.Deserialize | transaction_payload.py:39-40 | Reads the same three parts. |
| Payload.MultiSigTransactionPayload.Serialize | transaction_payload.py:61-64 | The inner payload is tag 0 and the entry function. |
| Payload.MultiSigTransactionPayload.Deserialize | transaction_payload.py:66-70 | The inner tag is read and dropped; the rest is the entry function. |
| Payload.Multisig.Serialize | transaction_payload.py:82-86 | Address, option flag, and the payload only when there is one. |
| Payload.Multisig.Deserialize | transaction_payload.py:88-95 | Reads the same three parts, refusing a flag other than 0 and 1. |
| Payload.TransactionPayload.Serialize | transaction_payload.py:50-52 | Appends the variant's tag and its body; raises exactly when the payload is not encodable. |
| Payload.TransactionPayload.Deserialize | transaction_payload.py:36-48 | On every byte string it ends with the cursor in bounds, having moved if it succeeds, and returns what the byte-string reader says; tags other than 0, 2 and 3 raise. |
| WireForms.PayloadTag | transaction_payload.py:9-11 | The first byte is 0 for a script, 2 for an entry function and 3 for a multisig payload. |
| WireForms.MultisigWireForm | transaction_payload.py:82-86 | A multisig payload is 3, the address, and 0 when there is no inner payload, or else 1, 0 and the entry function. |
| WireForms.TypeTagWireForm | transaction_payload.py:40-42 | Every type tag's number, and the order of a struct tag's parts. |
| WireForms.ScriptArgumentWireForm | transaction_payload.py:39-40 | Every script argument's number and width. |
| WireForms.ScriptWireForm | transaction_payload.py:50-52 | A script payload is 0, code, type arguments and arguments in that order. |
| Utf8.Utf8Exact | transaction_payload.py:69 | The byte strings accepted as names are exactly the UTF-8 encodings of sequences of Unicode scalar values. |
| PayloadLaws.EntryRoundTrip | transaction_payload.py:64-69 | Every encodable entry function reads back as itself, leaving exactly what follows. |
| PayloadLaws.TagRoundTrip | transaction_payload.py:40-42 | The same for type tags, by induction through nested vectors and structs. |
| PayloadLaws.MultisigRoundTrip | transaction_payload.py:82-95 | The same for multisig payloads, present or absent inner payload alike. |
| PayloadLaws.PayloadRoundTrip | transaction_payload.py:36-52 | For every payload of every variant and every trailing bytes, deserializing gives the payload and leaves exactly the trailing bytes. |
| PayloadLaws.PayloadUniquelyDecodable | transaction_payload.py:50-52 | Two payloads followed by anything give the same bytes only if payloads and what follows are the same. |
| PayloadLaws.PayloadPrefixFree | transaction_payload.py:50-52 | No serialized payload is a prefix of another payload's. |
| PayloadLaws.PayloadDecodedEncodable | transaction_payload.py:36-48 | Whatever the reader accepts can be serialized again without raising. |
| PayloadLaws.PayloadNormalises | transaction_payload.py:36-52 | Decoding, encoding and decoding again gives the same payload, for every input the reader accepts. |
| CanonicalLaws.PayloadReencodes | transaction_payload.py:36-52 | The re-encoded bytes equal the bytes consumed if and only if every ULEB128 integer read was in shortest form and no nonzero tag was dropped inside a multisig payload. |
| CanonicalLaws.StrictReencodes | transaction_payload.py:66-70 | Where the strict reader accepts, the client's reader agrees with it, and only a dropped inner tag can keep the bytes from coming back. |
| CanonicalLaws.InnerTagIgnored | transaction_payload.py:68 | The reader gives the same payload for every inner tag. |
| CanonicalLaws.OverlongTagAccepted | transaction_payload.py:37 | An over-long payload tag is accepted by the client's reader and refused by the strict one. |
| Transactions.RawTransaction.Serialize | transfer_supra.py:79-80 | The raw transaction is sender, sequence number, payload, gas limit, gas price, expiry and chain id, and raises exactly when a number or the payload does not fit. |
| Transactions.RawRoundTrip | transfer_supra.py:79-80 | A raw transaction can be read back from its bytes, whatever follows. |
| Transactions.RawWireForm | transfer_supra.py:79-80 | Where each field lies: sender in bytes 0 to 31, sequence number next, the payload up to 25 bytes from the end, then gas limit, gas price, expiry and, last, the chain id. |
| Transactions.RequestBytes | transfer_supra.py:66-80 | What a request puts into those places, with the expiry counted from now and the node's chain id when none or 0 is given. |
| Transactions.Keyed | transfer_supra.py:48-51 | The signing message starts with the hash of `SUPRA::RawTransaction`, what follows reads back as the transaction with nothing left over, and it raises when the transaction cannot be serialized. |
| Transactions.SigningMessageInjective | transfer_supra.py:48-51 | Two transactions have the same signing message exactly when they are the same transaction. |
| Transactions.SigningMessagesSeparate | transfer_supra.py:48-51 | With the two salts hashed apart to one length, no single-signer message is a multi-agent message. |
| Transactions.MultiAgentPrehash | transfer_supra.py:49-51 | A multi-agent transaction hashes the same text followed by `WithData`. |
| Transactions.RequestsSignedAlike | transfer_supra.py:66-82 | Requests that differ in time span and chain id are signed alike exactly when the spans are equal and the chain ids mean the same chain; a chain id of 0 means the node's. |
| Arguments.ArgRoundTrip | create_multisig_account.py:29-35 | An argument reads back from its bytes by its encoder alone, through arbitrarily nested sequences, with nothing more read. |
| Arguments.EncodeArgInjective | create_multisig_account.py:29-35 | Arguments one encoder accepts are encoded alike only when equal. |
| Builders.CreateEntryFuncArguments | transfer_supra.py:54-63 | Building succeeds exactly when every argument has an encoder that accepts it, and then byte string i decodes to argument i with nothing left over. |
| Builders.CreateEntryFuncInjective | transfer_supra.py:54-63 | With the encoders fixed, an entry function determines module, function and arguments. |
| Builders.TransferDetermined | transfer_supra.py:144-155 | A transfer is built exactly for 64-bit amounts and fixes recipient and amount. |
| Builders.VoteDetermined | vote_multisig_tx.py:10-27 | A vote is built exactly for 64-bit sequence numbers and fixes account, sequence number and approval. |
| Builders.ProposalDetermined | propose_multisig_tx.py:32-46 | A proposal fixes the account and the hash. |
| Builders.RemovalDetermined | execute_multisig_tx.py:21-32 | A removal never raises and fixes the account. |
| Builders.CreationSucceeds | create_multisig_account.py:12-35 | Account creation is built exactly when both numbers fit 64 bits and all lengths 32 bits. |
| Builders.CreationDetermined | create_multisig_account.py:12-35 | Account creation fixes all five arguments, the three lists included. |
| WireForms.TransferCall | transfer_supra.py:144-155 | A transfer calls `supra_account::transfer` with the recipient and the amount's eight bytes. |
| WireForms.VoteWireForm | vote_multisig_tx.py:10-27 | A vote calls `multisig_account::vote_transanction` with the account, the sequence number's eight bytes, and 1 exactly when it approves. |
| WireForms.ProposalWireForm | propose_multisig_tx.py:32-46 | A proposal calls `multisig_account::create_transaction_with_hash` with the account and the hash behind its length. |
| WireForms.RemovalWireForm | execute_multisig_tx.py:21-32 | A removal calls `multisig_account::execute_rejected_transaction` with the account. |
| WireForms.CreationWireForm | create_multisig_account.py:12-35 | Account creation calls `multisig_account::create_with_owners` with the owners behind their count, the signatures required, keys, values and timeout, in that order. |
| Proposals.ComputeMultisigTxPayloadHash | propose_multisig_tx.py:24-29 | The hash is taken over the inner payload's bytes; it raises when the entry function cannot be serialized. |
| WireForms.ProposedWireForm | propose_multisig_tx.py:25-28 | The hashed bytes are a zero byte and the entry function. |
| Proposals.ExecutedPayloadEndsInProposedBytes | execute_multisig_tx.py:17-18 | The executed payload is tag 3, the address, a set flag, and then exactly the bytes hashed at proposal time. |
| Proposals.ProposedBytesInjective | propose_multisig_tx.py:24-28 | Two entry functions are hashed from the same bytes exactly when they are equal. |
| Proposals.ExecutionMatchesProposal | propose_multisig_tx.py:24-29 | An execution matches a proposal's hash exactly when the entry functions are equal, unless the two byte strings collide. |
| Proposals.ComputeMultisigAccountAddr | propose_multisig_tx.py:16-21 | The account address is derived from the owner and the seed; it raises exactly on a sequence number outside 64 bits. |
| WireForms.SeedWireForm | propose_multisig_tx.py:17-19 | The seed is the text `supra_framework::multisig_account` and then eight bytes holding the sequence number. |
| Proposals.MultisigAccountAddrInjective | propose_multisig_tx.py:16-21 | Owners and sequence numbers get addresses of their own, as far as the derivation keeps its inputs apart. |
| PayloadDict.PayloadToDict | transaction_payload.py:98-124 | The loop over the attributes builds the dictionary the recursive description gives, and raises in the same cases. |
| PayloadDictLaws.KeysCollide | transaction_payload.py:118-119 | Two attributes share a key exactly when one is the expiration being renamed and the other already has the new name. |
| PayloadDictLaws.RendersIff | transaction_payload.py:98-124 | Rendering raises exactly when some visible attribute cannot be rendered. |
| PayloadDictLaws.RenderedEntries | transaction_payload.py:98-124 | The dictionary has one entry for each visible attribute under its key, and no other. |
| PayloadDictLaws.HiddenNames | transaction_payload.py:101-102 | A name is hidden exactly when it is `prehash` or starts with an underscore. |
| PayloadDictLaws.HiddenLeavesNoTrace | transaction_payload.py:101-102 | An attribute with such a name leaves no trace, wherever it stands and whatever it holds. |
| PayloadDictLaws.RenderLosesOnlyHidden | transaction_payload.py:98-124 | Objects laid out alike have equal dictionaries exactly when they agree on every visible attribute at every depth; variants, and absent and present payloads, stay apart. |
| Submission.DictReadsBack | transaction_payload.py:98-124 | For entry functions and multisig payloads without type arguments, the dictionary reads back as the transaction it was made from. |
| Submission.RequestDict | transfer_supra.py:66-82 | What a request puts into the dictionary, key by key, the expiry under `expiration_timestamp_secs`. |
| Submission.PayloadField | transaction_payload.py:103-111 | The payload lies under `Script`, `EntryFunction` or `Multisig`, by its variant. |
| Submission.EntryFields | transaction_payload.py:103-123 | An entry function's dictionary has its module, name, type arguments and the arguments as lists of numbers under their keys. |
| Submission.MultisigFields | transaction_payload.py:112-115 | A multisig payload's dictionary has the address and, under `EntryFunction`, the inner entry function, or nothing when it is absent. |
| Submission.TransactionSubmittable | transfer_supra.py:103-111 | A transaction's dictionary can be sent as JSON exactly when it carries an entry function or multisig payload without type arguments. |
| Submission.PrehashDropped | transfer_supra.py:81 | The `prehash` method stored on the transaction leaves no trace in the dictionary. |
| Authentication.AuthToDict | transfer_supra.py:85-100 | The loop over an authenticator's attributes builds what the recursive description gives, and raises on other variants. |
| Authentication.Ed25519Determined | transfer_supra.py:85-105 | The rendered authenticator fixes public key and signature. |
| Authentication.BodyDetermined | transfer_supra.py:103-111 | Bodies of submittable transactions are equal exactly when transaction, public key and signature are. |
| Authentication.BodyEntries | transfer_supra.py:103-111 | The body key by key: under `Move` lie exactly `raw_txn` with the transaction's dictionary and `authenticator`, and under its `Ed25519` exactly `public_key` and `signature`. |
| Authentication.BodyReadsBack | transfer_supra.py:103-111 | The body of every submittable transaction reads back as that transaction, public key and signature. |
| Agreement.DictEqualIffSignedEqual | transfer_supra.py:103-116 | Dictionaries of two transactions are equal exactly when their signing messages are, scripts and type arguments included. |
| Agreement.DictRebuildsSigningMessage | transfer_supra.py:103-116 | What is read from a submitted dictionary serializes to the very bytes the signature covers. |
| Agreement.TransferWireForm | transfer_supra.py:144-155 | The bytes of a transfer payload, field by field: tag 2, framework address, module and function name, no type arguments, two arguments. |
| Agreement.ApprovedTransferIsExecuted | execute_multisig_tx.py:73-82 | A transfer executed from a multisig account matches an approved hash exactly when recipient and amount are the approved ones. |
| Bits.BitOrBit | multisig_auth.py:22 | Bitwise or on unbounded integers, bit by bit. |
| Bits.BelowPow2 | multisig_auth.py:26 | An integer fits w bits exactly when it has no bit at or above w. |
| Bits.BigEndianBit | multisig_auth.py:25-27 | Where the big-endian split puts each bit. |
| MultiSignature.RecordsStep | multisig_auth.py:20-22 | After each turn of the loop, bit 31 - i is set exactly when index i has appeared. |
| MultiSignature.RecordsFits | multisig_auth.py:25-27 | The bitmap fits four bytes exactly when no index is negative. |
| MultiSignature.MultisigToCryptoBytes | multisig_auth.py:16-28 | Raises exactly on an index outside 0 to 31; otherwise the signatures in list order and then four bytes in which signer i is bit 0x80 >> (i % 8) of byte i / 8. |
| MultiSignature.ChunkAt | multisig_auth.py:20-23 | Signature j takes bytes 64j to 64j + 63, whatever its index. |
| MultiSignature.WireFormUnique | multisig_auth.py:16-28 | That description fixes every byte: a list has one wire form. |
| MultiSignature.BitmapIsSetFunction | multisig_auth.py:20-27 | Two lists have the same last four bytes exactly when their index sets are equal. |
| MultiSignature.PopulationCount | multisig_auth.py:20-27 | The bitmap's bit count never exceeds the number of signatures, and equals it exactly when no index repeats. |
| MultiSignature.ReadBack | multisig_auth.py:16-28 | The matching reader refuses the bytes exactly when an index repeats, and otherwise pairs the listed signatures with the sorted indices. |
| MultiSignature.RoundTripIffAscending | multisig_auth.py:16-28 | The list comes back as it was exactly when its indices are strictly ascending. |
| MultiSignature.ReadThenWrite | multisig_auth.py:16-28 | Every byte string the reader accepts is the wire form of the list it reads. |
| MoveStore.Store.AddWriteSet | rpc_server/src/move_store.rs:91-107 | Appends a put for each creation and modification and a delete for each deletion, in iteration order; on a value that cannot be encoded it raises with the batch holding exactly the entries before it. |
| MoveStore.Store.GetStateValue | rpc_server/src/move_store.rs:28-42 | Raises exactly on a disk or decoding failure, gives nothing exactly for a key not in the shared database, and otherwise the decoded value. |
| MoveStore.Store.Clone | rpc_server/src/move_store.rs:20-23 | A cloned handle shares the database. |
| MoveStore.Database.Write | rpc_server/src/genesis.rs:79-82 | A batch is committed in order, all of it or none. |
| MoveStoreLaws.LookupAfterCommit | rpc_server/src/move_store.rs:91-107 | After a commit a key last created or modified reads as the value written, a key last deleted as nothing, and any other key as before. |
| MoveStoreLaws.EntryReadsAfterCommit | rpc_server/src/move_store.rs:93-105 | The same for each entry of a write set: a created or modified value is read back, a deleted key is gone. |
| MoveStoreLaws.CommitRefinesOverlay | rpc_server/src/move_store.rs:28-107 | The store refines a plain map from state keys to state values. |
| MoveStoreLaws.SameMapSameContents | rpc_server/src/move_store.rs:93-105 | Entry lists that come to the same map commit the same bytes. |
| MoveStoreLaws.OrderIndependent | rpc_server/src/move_store.rs:93-105 | Any iteration order of a write set commits the same contents. |
| MoveStoreLaws.CommitIdempotent | rpc_server/src/genesis.rs:74-83 | Committing the same change set again to an otherwise unchanged store changes nothing. |
| MoveStoreLaws.OneBatchIsMany | rpc_server/src/move_store.rs:91-107 | Any sequence of write sets in one batch commits what a batch for each would. |
| MoveStoreLaws.OneBatchIsMerge | rpc_server/src/move_store.rs:91-107 | It also equals one commit of the right-biased merge, whatever puts and deletes overwrite each other. |
| Genesis.CreateGenesis | rpc_server/src/genesis.rs:70-84 | Succeeds exactly when opening, every value encoding and the write succeed, with the full change set applied; otherwise the stored state is untouched. |

## Left out

- The SDK's own sources (byte primitives, type tags, entry functions, scripts, raw transactions) are not part of the repository. They are modelled from the BCS format and Move's numbering of type tags and script arguments, with 2^32 - 1 as the bound on ULEB128 integers in both directions.
- The text form `address::module` that an entry function's module passes through on its way into the SDK is taken to come back as it went in.
- Arguments whose kind does not fit their encoder are taken to raise; Python would let some through, such as a number given to the boolean encoder.
- Sequence encoders write into a fresh serializer for each element; here the element's bytes are appended directly.
- Serialize: what a serializer's buffer holds after a failed write is not stated; every caller drops it.
- ComputeMultisigAccountAddr: the SDK's derivation from owner and seed is a parameter, because it is a hash.
- AuthToDict: public keys and signatures appear by their printed text, and Ed25519 is the only variant.
- BodyDetermined: says nothing of transactions that cannot be submitted; DictEqualIffSignedEqual covers their dictionaries.
- The raw transaction of the multi-agent kind: only its salt is modelled.
- JSON text itself: bodies are compared as dictionaries.
- Database: rocksdb's column families, caching and options are one map whose write is atomic.
- CreateGenesis: what the genesis change set contains comes from the Aptos libraries and is a parameter.
- The two state codecs (`StateKey::encoded` and BCS of `StateValue`) are parameters assumed injective and invertible.
- Scripts that poll, print, fund accounts or view state, the mnemonic files, the RPC handlers, VM pool and executor: plumbing with no hard property.
- On-chain voting and thresholds: they live in a Move module that is not in the repository.
