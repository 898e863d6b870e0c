# hook: a verified model of the webhook receiver's core

`hook` accepts GitHub push webhooks at `POST /<repo_name>` and checks each request. If the request passes, it runs a `git pull` in a local mirror. This project models in Dafny all of its logic that does not depend on a framework:

- **HMAC-SHA256** (`hmac.dfy`, module `Hmac`). The key is normalised into a zero-filled 64-byte buffer by the in-place `sum` loop; a key longer than one block is hashed first. The inner and outer pads come from the in-place `xor` loop with `0x36` and `0x5c`. The MAC is `H(opad ++ H(ipad ++ message))`. `Sum`, `Xor` and `HmacSha256` are methods over `array<bv8>`. `HmacSha256` is proved equal to `Hmac`, a reference definition that follows RFC 2104 section 2. SHA-256 is a parameter `H` of type `Hash`: any function whose every digest is 32 bytes.
- **Signature and header classification** (`github.dfy`, module `GitHub`). Lower-case hex encoding and the two `PartialEq` directions between a `Signature` header and a digest. Also the three request guards: `User-Agent` must start with `GitHub-Hookshot/`, `X-GitHub-Event` must be `push`, and `X-Hub-Signature-256` must be present.
- **Policy table** (`config.dfy`, module `GitConfig`). `str::split` on `/`, conversion of a `UserPolicy` into a `Policy`, the loop that builds the `repo_name -> index` map, the uniqueness check, and lookup by name. A startup panic is modelled as an `Err` result.
- **Request pipeline** (`handler.dfy`, module `Handler`). `ReadBody` is the bounded read loop: at most 20 reads into a 512-byte buffer. `Decide` is the whole ordered chain of checks as one function. `Pull` is the handler written as the source writes it, with early returns, and is proved to answer `Respond(Decide(...))`.
- **UTF-8** (`utf8.dfy`, module `Utf8`). The handler relies on UTF-8 in two places. The body must pass `String::from_utf8`, which accepts exactly the well-formed sequences of RFC 3629 section 4. The policy secret becomes the HMAC key through its UTF-8 bytes.
- `common.dfy` holds `Option`/`Result` (modules `Wrappers`) and the HTTP statuses and guard outcomes (module `Http`).

The model has four inputs that the program does not compute. Each is a parameter:
- the answers of the body stream's reads (`seq<ReadResult>`);
- the JSON parser (`Parser`, from body bytes to an optional `Payload`);
- SHA-256 (`Hash`);
- the result of the action, should it run (`actionOk`).

Where the documented design and the code disagree, the model follows the code:
- A `repo_name` such as `"/"` or `"owner/"` is accepted, because only the number of `/`-separated pieces is checked (`EmptyPiecesAccepted`). The design asks for two non-empty pieces.
- The service check does not compare the policy's service with the detected origin. It matches the only variant, `Github`, so every policy passes it.
- The event check `(Push, Push)` cannot fail once the event guard has passed. Both enums that can reach it have only `Push` there, so its `NotFound` arm is dead (`RunIffAllChecksPass`).

## Model

| member | source | states |
|---|---|---|
| Utf8.Encode | src/git/mod.rs:116 | a secret of n characters becomes between n and 4n bytes |
| Utf8.EncodeScalarLeads | src/git/mod.rs:69-75 | one character's encoding is one well-formed UTF-8 sequence, whatever follows it |
| Utf8.EncodeIsValid | src/git/mod.rs:69-75 | the bytes of every string pass the UTF-8 check that the body must pass |
| Hmac.BlockKey | src/hmac.rs:11-20 | the normalised key is always exactly 64 bytes |
| Hmac.Hmac | src/hmac.rs:28-34 | the RFC 2104 MAC `H(K^opad ++ H(K^ipad ++ m))` is 32 bytes long |
| Hmac.Summed | src/hmac.rs:48-53 | `sum` keeps the length of `vec_a` |
| Hmac.Xored | src/hmac.rs:58-63 | `xor` keeps the length of `vec_a` |
| Hmac.Sum | src/hmac.rs:48-53 | in place: positions below min(len a, len b) become `a[i]+b[i]`, the others keep their values |
| Hmac.Xor | src/hmac.rs:58-63 | in place: positions below min(len a, len b) become `a[i]^b[i]`, the others keep their values |
| Hmac.HmacSha256 | src/hmac.rs:7-35 | the buffer-based computation equals the RFC 2104 HMAC of key and message, 32 bytes |
| Hmac.SumIntoZeros | src/hmac.rs:12 | summing into the zero-filled buffer never overflows a byte, and it copies the source into the front with zeros after it |
| Hmac.XoredFillIsPad | src/hmac.rs:23-26 | XOR with a block of `0x5c` (or `0x36`) is the RFC's K XOR opad (ipad) |
| Hmac.ShortKeyCopied | src/hmac.rs:17-19 | a key of at most 64 bytes, 64 included, is copied byte for byte; the remaining bytes are 0 |
| Hmac.LongKeyHashed | src/hmac.rs:13-16 | a longer key is replaced by its digest in bytes 0..32; bytes 32..64 are 0 |
| Hmac.PadsAt | src/hmac.rs:22-26 | `inner[i] = k[i] ^ 0x36` and `outer[i] = k[i] ^ 0x5c` for every i < 64 |
| Hmac.TrailingZerosIrrelevant | src/hmac.rs:12-20 | appending zero bytes to a short key does not change the MAC |
| Hmac.LongKeyAsDigest | src/hmac.rs:13-16 | a key longer than a block gives the same MAC as its digest |
| Hmac.PadInvertible | src/hmac.rs:58-63 | XOR-padding twice with the same byte gives the key back, so the pad determines the key |
| Hmac.PadsDiffer | src/hmac.rs:23-26 | the inner and outer pads of a key always differ |
| GitHub.Hex | src/git/github.rs:24 | the hex of n bytes has exactly 2n characters |
| GitHub.HexValueOfDigit | src/git/github.rs:24 | each of the 16 hex digits decodes back to its nibble |
| GitHub.HexIsLowercase | src/git/github.rs:24 | every character of the hex is one of `0-9a-f` |
| GitHub.HexInjective | src/git/github.rs:24 | equal hex strings come from equal digests |
| GitHub.ComparisonSymmetric | src/git/github.rs:22-34 | `sig == d` holds iff `d == sig` |
| GitHub.MatchingHeaderShape | src/git/github.rs:22-26 | a matching header is `sha256=` followed by 2n lower-case hex digits, so it has length 7 + 2n |
| GitHub.MalformedHeaderNeverMatches | src/git/github.rs:24-25 | a header with another prefix (such as `SHA256=`) or with a non-lower-case-hex character after it (such as upper-case hex) never matches |
| GitHub.HeaderDeterminesDigest | src/git/github.rs:22-26 | one header matches at most one digest |
| GitHub.SignatureFromRequest | src/git/github.rs:39-46 | succeeds iff the header is present, keeps its value verbatim, and otherwise fails with NotFound and `Missing` |
| GitHub.EventFromRequest | src/git/github.rs:66-73 | succeeds, with `Push`, iff the header is exactly `push`; otherwise NotFound, with `Missing` iff the header is absent and `Invalid` otherwise |
| GitHub.GithubFromRequest | src/git/github.rs:88-96 | succeeds iff the User-Agent is present and starts with `GitHub-Hookshot/`; otherwise NotFound, with `Missing` iff it is absent |
| GitHub.HookshotAgentsAccepted | src/git/github.rs:90-92 | the accepted User-Agents are exactly `GitHub-Hookshot/` followed by anything |
| GitConfig.Split | src/git/config.rs:56 | `split('/')` always yields at least one piece |
| GitConfig.JoinSplit | src/git/config.rs:56 | joining the pieces with `/` gives back the original string |
| GitConfig.SplitCount | src/git/config.rs:56-57 | the number of pieces is the number of `/` plus one |
| GitConfig.SplitPiecesFree | src/git/config.rs:56 | no piece contains `/` |
| GitConfig.PolicyFrom | src/git/config.rs:54-77 | succeeds iff the name has exactly one `/`, that is, two pieces. On success `user + "/" + repo_name == full_repo_name`, neither part contains `/`, `ssh_url` is `git@github.com:` + name + `.git`, and secret, service, event and action are carried over |
| GitConfig.EmptyPiecesAccepted | src/git/config.rs:56-60 | `"/"` is accepted, with an empty owner and an empty repository name |
| GitConfig.PoliciesFrom | src/git/config.rs:39 | all policies convert, in order, or the whole conversion fails with the invalid-name error |
| GitConfig.NamesCardinality | src/git/config.rs:45-47 | there are as many distinct names as policies iff no two policies share a `repo_name` |
| GitConfig.NameIndexLast | src/git/config.rs:40-44 | the index built by inserting every policy in order has exactly the policies' names as keys, and each name maps to the index of its last occurrence |
| GitConfig.BuildNameMap | src/git/config.rs:40-44 | the loop that inserts `(repo_name, i)` for each policy in turn builds exactly `NameIndex` of the policies |
| GitConfig.ConfigFrom | src/git/config.rs:37-53 | fails iff a name is invalid or two policies share a `repo_name`; on success the table is valid and every policy is found under its own name |
| GitConfig.GetPolicyFromName | src/git/config.rs:29-34 | in a valid table, returns a policy iff the name is registered, and that policy has the requested `repo_name` |
| GitConfig.LookupFindsEach | src/git/config.rs:29-34 | with unique names, looking up a policy's name returns exactly that policy |
| Handler.CollectStep | src/git/mod.rs:58-61 | one more non-empty read moves its data from the part still to read to the part collected |
| Handler.ReadBody | src/git/mod.rs:54-68 | the loop of at most 20 reads into a 512-byte buffer returns exactly the body that `BodyOf` defines, or nothing after a read error |
| Handler.CollectBounded | src/git/mod.rs:56-61 | the reads from the i-th on collect at most 512 * (20 - i) bytes |
| Handler.BodyBounded | src/git/mod.rs:53-61 | the body never exceeds 10240 bytes |
| Handler.LaterReadsIgnored | src/git/mod.rs:58 | data past the 20th read, and any error there, is never read |
| Handler.BodyIsConcatenation | src/git/mod.rs:58-61 | the body is the in-order concatenation of the chunks returned before the first zero-length read or the 20-read limit |
| Handler.ReadErrorLosesBody | src/git/mod.rs:59-65 | a read error before the end of the stream and the limit leaves no body, so the answer is BadRequest |
| Handler.Pull | src/git/mod.rs:46-133 | the handler with its early returns answers exactly `Respond(Decide(...))`, and its HMAC is computed by the buffer-based `HmacSha256` |
| Handler.GuardFailureIsNotFound | src/git/mod.rs:46-51 | a bad or missing User-Agent, event or signature header gives NotFound |
| Handler.MalformedBodyIsBadRequest | src/git/mod.rs:54-85 | a read error, invalid UTF-8 or a JSON shape failure gives BadRequest whatever the table holds, so also for an unknown `repo_name` |
| Handler.UnknownRepositoryIsNotFound | src/git/mod.rs:89-95 | an unregistered `repo_name` with a parseable body gives NotFound |
| Handler.NameMismatchIsNotFound | src/git/mod.rs:108-113 | a payload whose repository name differs from the route's gives NotFound, whatever the signature |
| Handler.RunIffAllChecksPass | src/git/mod.rs:87-132 | the action runs iff the guards pass, the body parses, the policy exists, the names agree, and the header is `sha256=` + hex(HMAC(secret bytes, exact body bytes)). The action run is the policy's |
| Handler.SignatureBindsBody | src/git/mod.rs:115-121 | two accepted requests with the same route and signature header carry bodies with equal HMACs |
| Handler.StatusMapping | src/git/mod.rs:124-132 | only 200/400/404/500 are answered. 400 comes only from body problems after the guards pass; 200 only when the action ran and succeeded; 500 only when it ran and failed |

## Left out

- The body of `Action::execute` (`Repository::open`, `find_remote`, `do_fetch`, `do_merge`) is foreign git2 code plus network and SSH I/O. The `pull` module that holds the fetch and merge is not part of this model. The action is an abstract success or failure (`actionOk`).
- SHA-256 is the `Hash` parameter. Only its 32-byte output length is assumed. Because of this, the model cannot prove that a single-bit change to the body invalidates the signature: that needs collision resistance. `SignatureBindsBody` is the strongest statement the model supports.
- `serde_json` parsing is the `Parser` parameter, applied to the body's bytes. Once the UTF-8 check has passed, those bytes and the string are interchangeable. The model does not decode UTF-8 into characters.
- RON parsing, `read_config` file I/O, `lazy_static` and the panic itself are left out. Construction failures are `Err` values.
- Rocket plumbing is left out: route mounting, the `format="json"` content-type match, percent-decoding of the `<repo_name>` segment, and how guard failures become responses. A guard failure is taken to answer its status (NotFound). The guards are evaluated in parameter order.
- `src/config.rs` (server settings with constant defaults) and `src/main.rs` (bootstrap, `prepend_url_base`) contain no logic of the core and are not modelled.
- Logging via `eprintln!` is left out. The code has no locking or concurrency. The code compares signatures with plain string equality, so no constant-time property is claimed.
- Hmac.Sum: u8 addition is modelled as wrapping, as in a release build. A debug build would panic on overflow instead. `hmac_sha256` never overflows because the buffer is all zeros (`SumIntoZeros`).
- Hmac.HmacSha256: `append` extends the pad vectors in place. The model concatenates their values (`inner[..] + message`).
- Handler.ReadBody: requires that each read returns at most the 512 bytes of the buffer, which the `Read` trait guarantees.
