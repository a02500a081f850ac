# Somebotty command host, modelled in Dafny

Somebotty is a Twitch chat bot that runs small bobascript programs. Each
file `<stem>.boba` in the `commands` directory becomes the chat command
`!<stem>`. When the first space-separated word of a chat message is a
command's name, the bot compiles that command's source, evaluates it, and
says the result in the channel.

`src/functions/serialize.rs` defines native `get` and `set` functions
backed by a key-value store. The `add_functions` that `handle_command`
calls (`src/commands.rs:11`, `:78`) is the one in `src/functions.rs`, and
it registers only the stubs of `src/functions.rs:8-28`, which never touch
the store. Nothing in the code declares the `serialize` module or
registers its functions, so no command reaches the store. Both are
modelled: the store-backed pair in `Serialize`, the stubs in
`StubFunctions`, and `HandleCommand` evaluates with the stubs.

The project has one module per part of the bot, plus one for the interpreter types it uses:

- `bobascript.dfy` (module `Bobascript`): the interpreter types the host
  uses. These are `Value`, with the five storable kinds plus `Other` for
  every other kind, `RuntimeError`, `Result`, unit, and the shape of a
  native function.
- `serialize.dfy` (module `Serialize`): the persisted schema
  `SerializedValue` and the conversions in both directions. Conversion to
  the schema is partial; conversion back is total. Both round trips are
  proved. The store is a class `Store` holding a
  `map<string, SerializedValue>`. Its methods `Get` and `Set` are the
  native `get` and `set`, and each is proved against a specification
  function (`GetOutcome`, `SetOutcome`).
- `stub_functions.dfy` (module `StubFunctions`): the stub `get`/`set`
  natives, which only check how many arguments they got. Also the
  interpreter's native table (`Vm`) and `AddFunctions`, which registers
  the two stubs.
- `commands.dfy` (module `Commands`): how a file name becomes a command
  name, the `Path::extension` test, brace wrapping, and the startup scan
  `GetCommands`, a loop over the listing proved against `Registered`. It
  also holds the `Registry` class, whose map field is changed in place by
  create/delete/update, and the message handler `HandleCommand`.

Numbers are carried as their 64-bit IEEE bit pattern (`bv64`). Nothing
computes on them, so the round trip keeps them exactly.

Two facts about the code shape the model:

- The code reads each file's contents eagerly, during the scan and on
  create (`src/commands.rs:34`, `:45`), although the comment at
  `src/commands.rs:14` wishes for lazy loading. The model takes the file
  contents as inputs.
- `handle_command` unwraps the compile and evaluate results
  (`src/commands.rs:79-80`), so either error panics the message task. The
  model's `Outcome.Panic` stands for this.

## Model

| member | source | states |
|---|---|---|
| Serialize.Encode | src/functions/serialize.rs:19-48 | conversion succeeds exactly when the value is built only from tuples, records, numbers, booleans and strings at every depth; every failure is `OperationNotSupported` |
| Serialize.EncodeAll | src/functions/serialize.rs:24-31 | a tuple's elements convert exactly when all are storable; the result has the same length and element i is the conversion of element i |
| Serialize.Decode | src/functions/serialize.rs:49-77 | the reverse conversion is total and always yields a storable value |
| Serialize.DecodeEncode | src/functions/serialize.rs:19-77 | for every storable value, converting and converting back gives the same value, nested tuples and records included |
| Serialize.EncodeDecodeIdentity | src/functions/serialize.rs:19-77 | for every stored value, converting back and converting again gives the same stored value |
| Serialize.EncodeTuple | src/functions/serialize.rs:24-31 | a converted tuple is a tuple of the same length with each element converted, in order |
| Serialize.EncodeRecord | src/functions/serialize.rs:32-41 | a converted record has the same key set and holds the converted value under each key |
| Serialize.EncodeScalar | src/functions/serialize.rs:42-45 | numbers, booleans and strings keep kind and payload; any other non-container kind fails with `OperationNotSupported` |
| Serialize.EncodeTupleFails | src/functions/serialize.rs:24-31 | one unconvertible element makes the whole tuple fail with `OperationNotSupported` |
| Serialize.EncodeRecordFails | src/functions/serialize.rs:32-41 | one unconvertible value under any key makes the whole record fail with `OperationNotSupported` |
| Serialize.GetOutcome | src/functions/serialize.rs:79-101 | `get`: an argument count other than 1 gives `IncorrectParameterCount(1, n)`; a non-string key gives `OperationNotSupported`; an absent key gives unit; a present key gives the value whose conversion is what the store holds |
| Serialize.SetOutcome | src/functions/serialize.rs:103-125 | `set`: an argument count other than 2 gives `IncorrectParameterCount(2, n)`; a non-string key or an unconvertible value gives `OperationNotSupported` and writes nothing; success gives unit, stores the converted value under the key, and leaves every other key unchanged |
| Serialize.SetThenGet | src/functions/serialize.rs:86-120 | after a successful `set(key, v)`, `get(key)` answers `v`, whatever the key held before |
| Serialize.SetLeavesOtherKeys | src/functions/serialize.rs:114-120 | a `set` under one key does not change what `get` answers for any other key |
| Serialize.Store.constructor | src/main.rs:17 | the store opens holding whatever it already persisted |
| Serialize.Store.Get | src/functions/serialize.rs:79-101 | the native `get` answers `GetOutcome` of the current contents and changes nothing |
| Serialize.Store.Set | src/functions/serialize.rs:103-125 | the native `set` answers, and leaves the store, as `SetOutcome` of the old contents says |
| StubFunctions.Get | src/functions.rs:8-17 | fails exactly when the argument count is not 1, with `IncorrectParameterCount(1, n)`; otherwise answers unit whatever the argument |
| StubFunctions.Set | src/functions.rs:19-28 | fails exactly when the argument count is not 2, with `IncorrectParameterCount(2, n)`; otherwise answers unit |
| StubFunctions.Vm.constructor | src/commands.rs:77 | a fresh interpreter starts with its default native table |
| StubFunctions.Vm.DefineNative | src/functions.rs:31-38 | defining a native binds its name and keeps every other binding |
| StubFunctions.AddFunctions | src/functions.rs:30-39 | afterwards "get" and "set" are bound to the stubs, and every other binding is as before |
| Commands.IsScript | src/commands.rs:22-28 | the scan's test, ".boba" after a non-empty stem (equal to the extension test by `BobaExtension`); a kept name is longer than five characters, so cutting off ".boba" is safe |
| Commands.FileExtension | src/commands.rs:23 | `Path::extension`: none exactly when the name is ".." or has no '.' after its first character; otherwise the text after the last '.', which is not the leading character |
| Commands.CommandName | src/commands.rs:36 | the command name is the prefix '!' followed by the file name with its last five characters cut off: it is four characters shorter than the file name, and its text after '!' followed by the last five characters gives back the file name (the same derivation is at `:47` and `:55`) |
| Commands.BobaExtension | src/commands.rs:23-24 | `Path::extension` is "boba" exactly when `IsScript` holds: the name is longer than 5 and ends with ".boba" |
| Commands.CommandNameOfScript | src/commands.rs:35-36 | the file `stem.boba` is a script exactly when `stem` is non-empty, and its command name is `"!" + stem` |
| Commands.CommandNameInjective | src/commands.rs:36 | two script files with the same command name are the same file |
| Commands.Wrap | src/commands.rs:38 | the stored source is the contents between '{' and '}' |
| Commands.WrapInjective | src/commands.rs:50 | wrapping loses nothing: equal sources come from equal contents |
| Commands.Scripts | src/commands.rs:20-29 | the kept entries are exactly the listing's entries whose extension is "boba" |
| Commands.GetCommands | src/commands.rs:17-42 | the scan loop builds the map `Registered` gives for the kept entries |
| Commands.RegisteredKeys | src/commands.rs:32-39 | the scan map has a key for exactly the command names of the kept entries |
| Commands.NotRegistered | src/commands.rs:32-39 | a file name that no kept entry has gets no command |
| Commands.RegisteredSource | src/commands.rs:32-39 | with distinct file names, each kept entry's command holds that entry's wrapped contents |
| Commands.RegisteredSize | src/commands.rs:32-39 | with distinct file names, the scan map has one command per kept entry |
| Commands.ScriptsDistinct | src/commands.rs:20-29 | filtering a listing with distinct names keeps the names distinct |
| Commands.ScriptsCount | src/commands.rs:20-31 | the filter keeps as many entries as the listing has script entries |
| Commands.ScanSize | src/commands.rs:17-42 | for a directory listing, the scan makes exactly one command per ".boba" entry |
| Commands.ScanSources | src/commands.rs:32-39 | for a directory listing, every ".boba" entry's command holds that file's wrapped contents |
| Commands.ScanNames | src/commands.rs:20-39 | every command of the scan comes from a ".boba" entry; other entries make none |
| Commands.GreetScenario | src/commands.rs:17-42 | a directory with `greet.boba` and `notes.txt` gives exactly the command `!greet` with source `{contents}` |
| Commands.FirstToken | src/commands.rs:71 | the token is the longest space-free prefix of the message: the text up to the first ' ', or the whole message |
| Commands.Registry.constructor | src/commands.rs:15 | the registry starts as the scan of the directory |
| Commands.Registry.CreateCommand | src/commands.rs:44-51 | the file's command now holds the wrapped contents, replacing any earlier one; other commands are unchanged |
| Commands.Registry.DeleteCommand | src/commands.rs:53-59 | the file's command is gone; other commands are unchanged; deleting an absent command changes nothing |
| Commands.Registry.UpdateCommand | src/commands.rs:61-64 | delete then create ends in the state create alone gives |
| Commands.Registry.HandleCommand | src/commands.rs:66-92 | no reply exactly when the first token is not a command. On a hit, a compile or evaluate error panics. Otherwise the reply goes to "sand_head" and is the string itself for a `String` result, or `to_string` of any other result. Evaluation runs with the stub natives added to a fresh native table |

## Left out

- Concurrency: the `RwLock`/`Lazy` statics and `.await`. The registry is one map changed by one caller at a time.
- The filesystem: `read_dir` and `read_to_string`, and their `unwrap` panics. The directory listing and the file contents are inputs.
- Nothing in the source calls `create_command`, `delete_command` or `update_command` (`src/commands.rs:44-64`), apart from `update_command` calling the other two; there is no filesystem watcher. They are modelled as `Registry` methods that any caller may use.
- The database opened at `src/main.rs:17` also holds the OAuth token, under the key "user_access_token" (`src/tokens.rs:9`, `:36`, `:42`). `Store` holds only `SerializedValue`s. So it cannot express a `get("user_access_token")` whose bytes are not a serialized value, which panics at `src/functions/serialize.rs:89-90`. Nor can it express a `set` that overwrites the token.
- The bincode byte layout and sled I/O. The store holds `SerializedValue` directly, so a store error never happens here.
- Serialize.GetOutcome: does not model the `RuntimeError::Unknown` raised on a store read error, or the panics of `deserialize(..).unwrap()`, because the store is not fallible here.
- Serialize.SetOutcome: does not model the `RuntimeError::Unknown` raised on a store write error, for the same reason.
- Serialize.GetOutcome, Serialize.SetOutcome, StubFunctions.Get and StubFunctions.Set report the argument count as an unbounded number. The `try_into().unwrap()` into the error's integer type would panic for huge counts; that width is not part of this model.
- Commands.CommandName: cuts the last five characters, where the source cuts the last five UTF-8 bytes (`src/commands.rs:36`, `:47`, `:55`). The two agree when the name's last five characters are ASCII, which holds for every entry the scan keeps, since those end in ".boba". Otherwise they differ. For "café.txt" the source's cut falls inside 'é' and panics, while the model gives "!caf". For "abcdé" the source gives "!a" and the model gives "!". A name shorter than 5 bytes panics in the source; the `requires |fileName| >= 5` stands for that, and it also leaves out names of at least 5 bytes but fewer than 5 characters.
- Commands.Registry.CreateCommand, Commands.Registry.DeleteCommand and Commands.Registry.UpdateCommand take their command name from `CommandName`, so the same character-versus-byte difference applies to them.
- Compiling (`compiler::compile_expr`), evaluating (`vm.evaluate`), `Value::to_string` and the default native table of a new interpreter belong to the interpreter. They are parameters of `HandleCommand`.
- Sending the reply (`client.say`) and its `unwrap` are transport. `HandleCommand` returns what would be said.
- `println!` logging and `HashMap` iteration order.
- `src/main.rs` (message loop), `src/tokens.rs` (OAuth token storage), `src/settings.rs` (configuration) and `src/functions/date.rs` (clock and date formatting) are not part of this model.
