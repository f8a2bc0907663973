# ECLO camera listener: image store and event handler

This project models the core of the camera backend's long-running MQTT listener (`controllers/core/mqtt.php`), with proofs. The model covers two pieces:

- **`save_image_from_base64`** takes an inline `data:image/(jpeg|jpg|png);base64,` payload and checks it. It writes the decoded bytes into the faces upload directory, then copies them into the photos directory. The function returns the two paths relative to the public root, or `null` on any failure. When it fails part-way, it removes the faces file it has already written.
- **The subscribed callback** runs once per message:
  - It drops an envelope that is unusable or has no `info`.
  - It dispatches on the last segment of the topic.
  - For `Rec` (a recognized face) it saves the image if there is one and logs one `mqtt_messages` row.
  - For `Snap` (an unrecognized face) it does the following:
    - It deduplicates by the md5 of the image payload. A `snap_lock:<hash>` Redis key is set with NX and a 10 s expiry. A `snap_cooldown:<hash>` key with a 300 s expiry suppresses repeats.
    - It saves the image and logs an `Auto-Reg` row.
    - It inserts an `employee` row and publishes an `EditPerson` command carrying the photo URL.
    - It arms the cooldown.
    - If the employee insert throws, it unlinks both images.
    - In every case after acquiring the lock, it releases the lock.

Each call is a pure step from a `World` to a new `World` plus an `Outcome`. The `World` holds:

- the Redis keys, each with its expiry instant;
- the files on disk;
- the two append-only tables;
- the published commands.

What an invocation observes of the outside world is a parameter. The clock, the `uniqid` and `date` strings, the file system's answers and the success of the insert and of the publish all come from `Tick`. md5, base64 decoding and float formatting come from `Ctx`. Running handlers one after another (`Dedup.Run`) gives the cross-invocation guarantees:

- mutual exclusion under the lock;
- expiry of a stale lock;
- at most one registration per image hash within a 300-second window.

Two behaviours of the code are modelled exactly as written:

- **The `Auto-Reg` row comes before the insert.** The code writes this audit row before the employee insert (lines 286-288). The `catch` block at lines 311-317 exists to undo a registration whose insert failed: it unlinks both images. It does not remove that row, though. The logged row is therefore left behind, naming a faces image that no longer exists (`Listener.InsertFailureRowNamesDeletedImage`).
- **A failed publish still arms the cooldown.** `publishMqttMessage` reports failure by returning `false` and does not throw. So a failed publish still arms the cooldown and is not compensated.

Modules:

| file | module | contents |
|---|---|---|
| wrappers.dfy | `Wrappers` | `Option`, `Result` |
| php.dfy | `Php` | JSON scalars, `??`, truthiness, `(string)` of integers, `rtrim`, `basename`, `str_replace`, `explode` |
| kvstore.dfy | `KvStore` | Redis keys with expiry: `SET NX EX`, `SETEX`, `DEL` |
| imagestore.dfy | `ImageStore` | `save_image_from_base64` and its file naming |
| listener.dfy | `Listener` | the subscribed callback: `Rec`, `Snap`, compensation, `EditPerson` |
| dedup.dfy | `Dedup` | sequences of invocations: lock and cooldown guarantees |

## Model

| member | source | states |
|---|---|---|
| `Php.Falsy` | controllers/core/mqtt.php:246 | `!$pic` holds of a string exactly when `empty()` would hold of it, and of an integer exactly when its string form is "0" |
| `Php.Empty` | controllers/core/mqtt.php:58 | `empty()` holds of null, and of a string exactly when it is "" or "0" |
| `Php.NatToString` | controllers/core/mqtt.php:90 | the decimal text of `time()` is a non-empty string of digits without a leading zero |
| `Php.DigitsValueOfNatToString` | controllers/core/mqtt.php:90 | reading the timestamp text back as a decimal number gives the timestamp (round trip) |
| `Php.NatToStringInjective` | controllers/core/mqtt.php:90 | different timestamps give different texts |
| `Php.IntToStringZero` | controllers/core/mqtt.php:246 | the only integer whose `(string)` form is "0" is zero |
| `Php.RTrimSlash` | controllers/core/mqtt.php:92-93 | `rtrim($dir, '/')` is a prefix of `dir` that does not end in '/' and is followed only by slashes |
| `Php.SplitLast` | controllers/core/mqtt.php:216 | splitting at the last occurrence of a character fails exactly when the character is absent, and the pieces rebuild the string with no occurrence in the tail |
| `Php.SplitLastAt` | controllers/core/mqtt.php:216 | any split whose tail is free of the character is the one found |
| `Php.Basename` | controllers/core/mqtt.php:216 | `basename` yields a slash-free string no longer than the path. It is the final segment of the path with its trailing slashes removed: a suffix of the trimmed path that is either all of it or preceded by a '/' |
| `Php.BasenameOfPath` | controllers/core/mqtt.php:312-316 | the basename of `dir/name` is `name` for a non-empty slash-free name |
| `Php.ReplaceDots` | controllers/core/mqtt.php:90 | `str_replace('.', '_', …)` keeps the length and changes exactly the dots, each to '_' |
| `Php.AfterFirst` | controllers/core/mqtt.php:82 | the text after the first comma exists exactly when there is a comma |
| `Php.AfterFirstAt` | controllers/core/mqtt.php:82 | in `a,b` with a comma-free `a`, the text after the first comma is exactly `b` |
| `Php.Before` | controllers/core/mqtt.php:82 | the text before the first comma is a comma-free prefix that stops at a comma or the end |
| `Php.ExplodeSecond` | controllers/core/mqtt.php:82 | The second element of `explode(',')` has no comma, and it is empty when the payload has no comma. Otherwise it is the text after the first comma, up to the second comma or the end |
| `Php.ExplodeSecondAt` | controllers/core/mqtt.php:82-83 | with exactly one comma, the second element of `explode(',')` is everything after it |
| `KvStore.SetNx` | controllers/core/mqtt.php:257-259 | `SET NX EX` succeeds exactly when the key is not live. On failure the store is unchanged. On success the key is live exactly for the next `ttl` seconds. No other key changes |
| `KvStore.SetEx` | controllers/core/mqtt.php:309 | `SETEX` makes the key live exactly for the next `ttl` seconds and changes no other key |
| `KvStore.Del` | controllers/core/mqtt.php:320-323 | `DEL` removes the key and changes no other key |
| `ImageStore.DataUrlPrefixesExclusive` | controllers/core/mqtt.php:66 | no payload starts with two different accepted headers |
| `ImageStore.ParseDataUrl` | controllers/core/mqtt.php:66-69 | the format found is exactly the one whose header starts the payload, and none is found when no header matches |
| `ImageStore.Extension` | controllers/core/mqtt.php:89 | both JPEG spellings are written as `jpg`, and only PNG gives `png` |
| `ImageStore.ImageName` | controllers/core/mqtt.php:89-90 | the name starts with the prefix and ends in '.' and the extension, and no '.' lies between them, so the extension is unambiguous. `ImageStore.ImageNameRoundTrip` reads the parts back |
| `ImageStore.ImageNameRoundTrip` | controllers/core/mqtt.php:89-90 | a chosen file name parses back into its sanitized stem, its timestamp and its extension |
| `ImageStore.ImageNameInjective` | controllers/core/mqtt.php:89-90 | two saves choose the same name only in the same second with the same extension and sanitized stem |
| `ImageStore.ImageNameIsSegment` | controllers/core/mqtt.php:90-93 | with a slash-free prefix and seed, the file name is one non-empty path segment |
| `ImageStore.DirFile` | controllers/core/mqtt.php:92-93 | the joined path is the directory without its trailing slashes, then one '/', then the name (`ImageStore.DirFileTail`). A non-empty slash-free name is the path's basename |
| `ImageStore.DirFileTail` | controllers/core/mqtt.php:92-93 | whatever the name, slashes included, the joined path ends in it |
| `ImageStore.RootsBasename` | controllers/core/mqtt.php:124-125 | the basename of a returned `uploads/faces/<n>` or `uploads/photos/<n>` path is `<n>` |
| `ImageStore.Save` | controllers/core/mqtt.php:56-132 | Failure cases: an empty or unsupported payload is refused and no file changes. The save succeeds exactly when every check, the decode, the write, the copy and both existence checks pass. Success returns `uploads/faces/<n>` and `uploads/photos/<n>` and leaves the decoded bytes under `<n>` in both directories. Failure creates or changes no file and can only remove the two targets |
| `ImageStore.BothOrNeither` | controllers/core/mqtt.php:97-118 | when neither target existed, a save leaves both files and succeeds, or leaves neither file and fails |
| `ImageStore.SavedPathsShareName` | controllers/core/mqtt.php:92-93 | both returned paths end in the same file name, and the two files written under that name exist |
| `ImageStore.StoresDecodedBody` | controllers/core/mqtt.php:82-83 | for `header + body`, both stored files hold the base64 decoding of `body` |
| `ImageStore.DataUrlBody` | controllers/core/mqtt.php:66-83 | a header followed by a comma-free body is recognized as its format, and the second element of `explode(',')` is the body |
| `Listener.KeysDistinct` | controllers/core/mqtt.php:255-256 | a lock key never equals a cooldown key, and each kind of key identifies its hash |
| `Listener.EventTime` | controllers/core/mqtt.php:228-243 | `$info['time'] ?? date(…)` is the event's `time` when present and the current date otherwise |
| `Listener.RecPic` | controllers/core/mqtt.php:220 | `$info['pic'] ?? null` is null exactly when `pic` is missing, and otherwise it is the string form of the value |
| `Listener.RecSeed` | controllers/core/mqtt.php:220 | `$info['personId'] ?? uniqid()` is the `uniqid` result when `personId` is missing, and otherwise it is the string form of the id |
| `Listener.SnapPic` | controllers/core/mqtt.php:237-246 | A `Snap` image is refused exactly when `pic` is missing or falsy. An accepted image is passed to the save as the `Rec` branch passes it. For a string or integer `pic`, refusal agrees with the save's `empty()` |
| `Listener.EditPerson` | controllers/core/mqtt.php:300-305 | The command is `EditPerson` on `mqtt/face/1018656` with person type 0. It carries the new `sn`, the display name and the message id. Its `picURI` is the base URL, a '/', and the photos path |
| `Listener.HandleRec` | controllers/core/mqtt.php:219-232 | Exactly one `Rec` row is appended, and each column follows its `??` fallback chain. The row holds the faces path exactly when the save succeeded, and then both images exist. Otherwise no file is created. Redis, employees and commands are untouched |
| `Listener.Compensate` | controllers/core/mqtt.php:311-317 | the `catch` block removes the two files at directory + basename of each returned path and nothing else |
| `Listener.SnapAdmitted` | controllers/core/mqtt.php:266-319 | Under the lock there are four cases. A live cooldown suppresses the event with a stranger row and no file change. A failed save logs a stranger row. A failed employee insert ends in the inner `catch` (lines 311-317), which `Listener.AdmittedInsertFailure` describes. A registration logs an `Auto-Reg` row, adds one employee with the photos path, and adds the `EditPerson` command with `baseUrl/uploads/photos/<n>` only if the publish succeeded. It then arms a 300 s cooldown and touches no other key |
| `Listener.HandleSnap` | controllers/core/mqtt.php:235-324 | Every `Snap` path logs exactly one row. A missing or falsy image changes nothing else. A lock held by another handler changes nothing else. Once the lock has been acquired, it is gone on return. Only a registration adds an employee or a command |
| `Listener.SnapChangesOnlyItsOwnKeys` | controllers/core/mqtt.php:255-322 | an admitted `Snap` changes only its own lock and cooldown keys, and the cooldown only when it registers |
| `Listener.SnapCooldownSuppresses` | controllers/core/mqtt.php:268-273 | a `Snap` ends in the cooldown branch exactly when it was admitted and its cooldown was live, and then no file changes and a stranger row is logged |
| `Listener.SnapSaveFailureLogsStranger` | controllers/core/mqtt.php:276-283 | a failed save logs a stranger row without an image and creates no file |
| `Listener.SnapRegistration` | controllers/core/mqtt.php:286-309 | A registration needs a dead cooldown. It writes the `Auto-Reg` row naming the faces image and one employee named `Người lạ <d/m H:i>` with the photos image. It publishes one `EditPerson` command if the publish succeeded and none otherwise. Both images exist, and the cooldown then lives exactly 300 s |
| `Listener.Handle` | controllers/core/mqtt.php:206-235 | An unusable envelope or a missing `info` changes nothing. The kind is the topic's basename, and kinds other than `Rec`/`Snap` change nothing. Exactly one row is logged per `Rec`/`Snap`. The tables only grow: one employee per registration, and one command per published registration |
| `Listener.HandleEvent` | controllers/core/mqtt.php:216-235 | the kind `Rec` gives a recognized event and `Snap` a snap event, and any other kind changes nothing. One row is logged per `Rec`/`Snap`, one employee per registration, and one command per published registration |
| `Listener.CompensationUndoesSave` | controllers/core/mqtt.php:311-317 | with slash-terminated upload directories, the `catch` block unlinks exactly the two files the save wrote, and leaves a sub-map of the files before the save |
| `Listener.CompensationTargets` | controllers/core/mqtt.php:312-316 | the compensation's path for each image is its upload directory joined with the image's file name |
| `Listener.InsertFailureRemovesImages` | controllers/core/mqtt.php:292-319 | a failed employee insert leaves neither image behind, adds no employee and does not touch the cooldown |
| `Listener.AdmittedInsertFailure` | controllers/core/mqtt.php:292-317 | inside the lock, a failed employee insert unlinks both images the save wrote, adds no employee and leaves Redis untouched |
| `Listener.InsertFailureRowNamesDeletedImage` | controllers/core/mqtt.php:286-317 | after a failed insert, the logged `Auto-Reg` row names a faces image that no longer exists |
| `Dedup.Run` | controllers/core/mqtt.php:206-325 | Invocations run one after another, with one outcome per message. Nothing recorded is lost. Over the whole run there is one audit row per `Rec`/`Snap` outcome, one employee per registration and one command per published registration |
| `Dedup.LockedOutWhileHeld` | controllers/core/mqtt.php:257-264 | a `Snap` whose lock is live logs one stranger row and changes nothing else |
| `Dedup.MutualExclusion` | controllers/core/mqtt.php:253-264 | A handler holds the lock for a hash from its `SET NX` (line 257) until its `DEL` (line 322), for at most 10 s. While it does, any other `Snap` for that hash is turned away without touching files, employees, commands or Redis |
| `Dedup.StaleLockExpires` | controllers/core/mqtt.php:257 | a lock never released stops blocking once its 10 s are over |
| `Dedup.HandleKeepsCooldown` | controllers/core/mqtt.php:268-322 | no invocation removes a cooldown marker or brings its expiry forward |
| `Dedup.SnapKeepsCooldown` | controllers/core/mqtt.php:268-322 | no `Snap` invocation removes a cooldown marker or brings its expiry forward |
| `Dedup.RegistrationArmsCooldown` | controllers/core/mqtt.php:268-309 | a registration needs its cooldown to be dead and leaves one that lasts the full 300 s |
| `Dedup.NoRegistrationWhileCool` | controllers/core/mqtt.php:268-273 | while a cooldown marker lives, no sequence of invocations registers its hash |
| `Dedup.CoolStep` | controllers/core/mqtt.php:268-273 | one invocation before the marker's expiry neither registers its hash nor shortens the marker |
| `Dedup.OneRegistrationPerWindow` | controllers/core/mqtt.php:253-309 | among time-ordered messages spanning less than 300 s, each image hash is registered at most once |
| `Dedup.QuietAfterRegistration` | controllers/core/mqtt.php:268-309 | after the first message of a window registers a hash, no later message in the window registers it |
| `Dedup.ConsRegistersOnce` | controllers/core/mqtt.php:268-273 | adding an outcome that registers no hash the rest registers keeps every hash registered at most once |
| `Dedup.DuplicateSnapScenario` | controllers/core/mqtt.php:235-309 | Two identical `Snap`s are sent less than 300 s apart, and the first registers. The result is one employee, at most one command and two rows, and the second `Snap` is suppressed by the cooldown |
| `Dedup.DuplicateSnapOutcomes` | controllers/core/mqtt.php:235-309 | the duplicate pair's outcomes are a registration (published exactly when the publish succeeded) and then a cooldown suppression |
| `Dedup.RepeatIsCooled` | controllers/core/mqtt.php:257-273 | the same image again within 300 s of its registration finds the lock free and the cooldown live |
| `Dedup.RecScenario` | controllers/core/mqtt.php:219-231 | a `Rec` naming Alice logs one row with her name, similarity, record id and time, and registers no one |

## Left out

- Connection setup and shutdown, plus the transport loop (lines 6-50, 134-204, 325-331). This covers reading `.env`, creating the directories at start-up, and connecting to the database, Redis and the broker. Instead, the upload directories, the base URL and the broker's delivery order are parameters (`Ctx`, and the message sequence in `Dedup.Run`). `publishMqttMessage` is reduced to its boolean result (`Tick.publishOk`). A successful publish appends one command to the outbox.
- `json_decode` is taken as given. The `Payload` datatype records what the handler's check at line 210 sees: no usable value, an object without `info`, or the `info` object.
- JSON `null` entries are treated like missing keys, exactly as `isset` and `??` treat them. Booleans, arrays and nested objects inside `info` are not modelled, nor is an `info` that is not an object.
- Concurrency: handlers run one after another, each at one instant. Each invocation reads the clock once, so its `SET`, `EXISTS`, `SETEX`, `time()` and `date()` all see the same instant. Two things are not modelled:
  - A critical section longer than `LockTtl`. Lines 266-323 do file I/O, database inserts and a publish with a 5-second connect timeout (line 40), so this can happen.
  - A `DEL` that removes another handler's lock (line 322).
  In the code, a second `Snap` can take the expired lock and pass the `EXISTS` check (line 268) before the first handler's `SETEX` (line 309), and both register. `Dedup.MutualExclusion`, `Dedup.NoRegistrationWhileCool` and `Dedup.OneRegistrationPerWindow` hold for handlers that each finish at one instant.
- PHP strings are byte strings; the model uses strings of characters. No result depends on this, because every delimiter the code looks for (`.`, `/`, `,`, `_`) is ASCII.
- md5, base64 decoding and PHP's float-to-string conversion are uninterpreted functions in `Ctx`. The `uniqid` results and the `date` renderings are fields of `Tick`.
- Audit inserts and `SETEX` never fail in the model. An exception from them, from Redis being unreachable, or from a type error escaping the callback is not modelled. Only the employee insert can fail, and its `catch` block is modelled.
- `chmod`, `error_log` and `echo` (lines 59-64, 105, 119, 208-217 and others) have no effect on the modelled state.
- `unlink` always succeeds in the model. In the code (lines 111, 116, 313 and 316), a failed `unlink` returns `false` with a warning, and the result is ignored, so the faces image, or both images, would stay behind. `ImageStore.BothOrNeither`, `Listener.CompensationUndoesSave` and `Listener.InsertFailureRemovesImages` rely on this.
- A file that disappears between the write and the existence check is modelled as an unsuccessful existence check. Partial writes are not modelled.
- Listener.HandleRec: the `similarity` and `record_id` columns hold the value before the `(float)` and `(int)` casts of lines 226-227, because PHP's numeric conversion of strings is not modelled.
- Listener.CompensationUndoesSave: assumes both upload directories end in exactly one '/' and the `uniqid` result has no '/'. The configured directories (lines 140-141) and `uniqid('NV_')` satisfy this. With other directories, the `catch` block can miss the files the save wrote.
- Listener.InsertFailureRemovesImages: same assumption as `Listener.CompensationUndoesSave`.
- Listener.AdmittedInsertFailure: same assumption as `Listener.CompensationUndoesSave`.
- Listener.InsertFailureRowNamesDeletedImage: same assumption as `Listener.CompensationUndoesSave`.
