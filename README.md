# A verified model of a small educational HTTP service

The service (`app.js`) has five endpoints that illustrate security and
concurrency pitfalls next to their fixes. This project models, in Dafny, the
four whose logic can be stated and proved:

- **`/login`** (`Login.dfy`): a lookup of the submitted user name and password
  in a fixed table of three user records, with exact equality on both fields.
  The first matching record is returned verbatim with 200; otherwise 401.
- **`/file`** (`FileServer.dfy`): a guard that refuses a missing or empty name
  or one containing `..`, `/` or `\` (400 "Invalid filename"); a filter that
  deletes every character outside `[A-Za-z0-9.\-_]`; resolution of the
  filtered name against `<dir>/uploads`; a check that the resolved path's text
  starts with the uploads directory's text (400 "Invalid file path"); and a
  read that returns the file's text (200) or fails (404 "File not found").
  Paths are absolute, normalised lists of segments, and `Render` gives their
  text. Resolution is modelled for names without a separator, which is all the
  filter can produce: `""` and `.` stay at the base, `..` goes to its parent,
  any other name is a child. The file system is a map from the path of each
  readable text file to its contents. Any other path makes the read fail,
  including a missing file or a directory.
- **`/duplicates`** (`Duplicates.dfy`): the single pass with a `seen` set and a
  `duplicates` set, as a method with a loop. The duplicates set keeps insertion
  order, as a JavaScript `Set` does, so it is a sequence with no repeats. The
  method is proved equal to a reference function, `DuplicatesInOrder`. That
  function lists each value that occurs at least twice, once, in the order of
  its second occurrence.
- **`/increment`** (`Counter.dfy`): the shared counter and its lock table as a
  class, under single-threaded cooperative scheduling. Each in-flight request
  has a program counter: `Polling`, `Holding` or `Done`. Each stretch of code
  between two `await`s is one atomic method:
  - `Arrive`: draw a fresh token, then make the first lock check. A request
    that finds the table empty takes the lock immediately.
  - `Poll`: after the 10 ms wait, check again and take the lock if the table
    is empty.
  - `Finish`: after the simulated work, increment the counter, reply with the
    new value, and drop the token in the `finally` block, whether or not
    sending the reply threw.

  The class invariant `Valid` holds the lock table to at most one token: the
  token of the one `Holding` request. It also ties the counter to the ordered
  list of finished requests, each of which obtained its position as its
  value. `Simulate` runs `n` requests under an arbitrary schedule, in which
  any reply may throw, then lets all of them finish. It proves that the
  counter ends at n and the lock table ends empty. The replies sent are
  distinct values in 1..n, and when no reply throws they are exactly 1..n,
  one per request.

The guard also refuses the empty name, because `!filename` is true for `""`.

## Model

| member | source | states |
|---|---|---|
| `Login.Find` | app.js:27 | Returns the position of the first record whose user name and password both equal the submitted ones. No earlier record matches. It returns `None` exactly when no record matches. |
| `Login.Login` | app.js:27-33 | Succeeds if and only if some seeded record matches both fields. On success it returns "Login successful" and the first matching record. Otherwise it returns "Invalid credentials". |
| `Login.SeededUsersLogIn` | app.js:13-30 | Each of the three seeded users, logging in with their own credentials, gets 200 and their own full record. |
| `Login.WrongPasswordRefused` | app.js:27-33 | A known user name with any other password, or with none, gets 401 "Invalid credentials". |
| `Login.UnknownUserRefused` | app.js:27-33 | A user name not in the table gets 401, whatever the password. |
| `FileServer.Contains` | app.js:41 | Models `String.prototype.includes`. It is true exactly when the needle occurs at some position of the string, as the independent `OccursAt` defines it. |
| `FileServer.ContainsChar` | app.js:41 | For the one-character needles `/` and `\`, the substring test is plain membership. |
| `FileServer.Rejects` | app.js:41 | The first check. It refuses a name exactly when the name is missing or empty, contains `/` or `\`, or has `..` at some position. `RejectedNameNotRead` and `TraversalRefused` prove what the handler then does. |
| `FileServer.RejectedNameNotRead` | app.js:41-43 | A missing name, an empty name or a traversal name gets 400 "Invalid filename". The response is the same whatever the file system holds, so nothing is read. |
| `FileServer.TraversalRefused` | app.js:41-43 | A name with `/` or `\` anywhere in it, or with `..` at any position, is refused by the first check. |
| `FileServer.ScriptedTraversalNamesRefused` | test-fixes.js:10-15 | The four traversal names used by the test script all get status 400. |
| `FileServer.Sanitise` | app.js:46 | Every character of the filtered name is in `[A-Za-z0-9.\-_]`. The filtered name is no longer than the input. |
| `FileServer.SanitiseKeepsAllowed` | app.js:46 | Each allowed character occurs in the filtered name exactly as often as in the input, and every other character does not occur at all. |
| `FileServer.SanitiseIsSubsequence` | app.js:46 | The filtered name is a subsequence of the input: the filter only deletes characters. |
| `FileServer.SanitiseFixedPoints` | app.js:46 | A name is left unchanged by the filter if and only if it is made only of allowed characters. |
| `FileServer.SanitiseIdempotent` | app.js:46 | Filtering twice gives the same result as filtering once. |
| `FileServer.StartsWith` | app.js:53 | Models `String.prototype.startsWith`: true exactly when the text is the prefix followed by some suffix. |
| `FileServer.Uploads` | app.js:49 | Models `path.resolve(__dirname, 'uploads')`: the path is the directory's segments followed by one more segment, `uploads`. |
| `FileServer.Resolve` | app.js:50 | Models `path.resolve(uploadsDir, name)` for a name without a separator. `""` and `.` give the base itself. `..` gives the base's parent, the base minus its last segment, or the root for the root. Any other name gives the base's direct child of that name. `ContainmentCheck` relates the result to the `startsWith` test. |
| `FileServer.ContainmentCheck` | app.js:49-55 | The `startsWith` check on the resolved path passes exactly when the filtered name is not `..`. The uploads directory and its children start with its text. Its parent's text is too short to. |
| `FileServer.Locate` | app.js:41-55 | Everything before the read. A name the first check refuses gives "Invalid filename". Every other refusal gives "Invalid file path". Every located path passes the `startsWith` test against the uploads directory. `LocateSucceeds` and `AcceptedPathInsideUploads` give the exact cases. |
| `FileServer.LocateSucceeds` | app.js:41-55 | A path is located if and only if the first check passes and the filtered name is not `..`. A name that filters to `..` gets 400 "Invalid file path". |
| `FileServer.AcceptedPathInsideUploads` | app.js:49-55 | Every located path is either the uploads directory itself, when the filtered name is empty or `.`, or its direct child named by the filtered name. |
| `FileServer.FilteredDotDotRefused` | app.js:46-55 | `.%.` passes the first check, filters to `..`, resolves to the parent directory and gets 400 "Invalid file path". |
| `FileServer.ServeFile` | app.js:37-64 | The whole handler. It answers 400 exactly when `Locate` refuses the name. A 200 body is the text of the located file and nothing else. 404 "File not found" means the located path is not a readable text file. `RejectedNameNotRead`, `ServesFileInUploads` and `FilteredToDirectoryNotFound` prove the cases. |
| `FileServer.ServesFileInUploads` | app.js:49-63 | A valid name whose filtered form names an ordinary entry returns that file's exact text when the file exists, and 404 "File not found" when it does not. |
| `FileServer.FilteredToDirectoryNotFound` | app.js:46-63 | A name that filters to nothing, or to `.`, reads the uploads directory itself, which is not a text file, so the response is 404. |
| `Duplicates.FindDuplicates` | app.js:71-84 | The loop's result equals the reference `DuplicatesInOrder`. It holds exactly the values that occur at least twice, each once. The loop invariants say that `seen` is the set of elements processed so far and that `duplicates` is contained in `seen`. |
| `Duplicates.DuplicatesInOrderMembers` | app.js:71-84 | A value is in the reference result if and only if it occurs at least twice in the input. |
| `Duplicates.DuplicatesInOrderNoRepeats` | app.js:72-84 | The reference result lists no value twice. |
| `Duplicates.PlantedDuplicates` | app.js:71-84 | With the planted input `[5, 1, 7, 1, 5, 5, 9]`, the result is exactly `[1, 5]`. |
| `SerialCounter.Counter.constructor` | app.js:102-103 | At start-up the counter is 0, the lock table is empty and no request is in flight. |
| `SerialCounter.Counter.Arrive` | app.js:105-115 | A new request with a fresh token makes its first check with no suspension before it. It takes the lock, leaving the table holding only its token, exactly when the table was empty. Otherwise it starts polling. Nothing else changes. |
| `SerialCounter.Counter.Poll` | app.js:110-115 | After a wait, a polling request takes the lock exactly when the table is empty. Observing the empty table and inserting the token happen in one step. Otherwise nothing changes. |
| `SerialCounter.Counter.Finish` | app.js:117-128 | The lock holder raises the counter by exactly one and replies with the new value. Its token is removed, so the table is empty, whether or not the reply was sent. |
| `SerialCounter.Counter.MutualExclusion` | app.js:110-115 | In every reachable state, at most one request holds the lock. |
| `SerialCounter.Counter.ReleasedWhenNoneHolds` | app.js:125-128 | When no request holds the lock, the lock table is empty. No token is left behind. |
| `SerialCounter.Counter.RepliesDistinctInRange` | app.js:122-124 | Any two replies sent are different, and each lies between 1 and the current counter. |
| `SerialCounter.Counter.Step` | app.js:105-128 | One scheduling step of any request keeps the invariant: at most one holder, and no lost or repeated value. This includes a finishing step whose reply throws. Only a thrown reply can leave a finished request without a reply. |
| `SerialCounter.Counter.RunOne` | app.js:110-128 | With the lock free, a request arrives or wakes, takes the lock, finishes and releases it. If it was not already done, the counter rises by one, the request joins the finished ones, and its reply is the new counter. If it was already done, nothing changes. No other request's state or reply changes. |
| `SerialCounter.Counter.ReleaseHolder` | app.js:119-128 | If the lock table was non-empty, its one holder `h` finishes: it ends Done, the counter rises by one, `h` joins the finished requests and its reply is the new counter (`RanToEnd`), and no other request's state changes. If the table was empty, nothing changes. Afterwards the lock table is empty, no request arrives or leaves, and no reply already sent changes. |
| `SerialCounter.Counter.RunToEnd` | app.js:105-128 | From any reachable state, including one after a failed reply, requests 0..n-1 can all finish. The lock table ends empty. Every reply sent before the run keeps its value. |
| `SerialCounter.Counter.AllFinishedCounted` | app.js:122 | When every request that arrived has finished, the counter equals their number, so no update is lost. This holds whatever the tokens are and whether or not the replies were sent. |
| `SerialCounter.Counter.AllFinishedRepliesOneToN` | app.js:122-124 | When N requests have finished and replied, their replies are exactly 1..N, one per request. |
| `SerialCounter.Simulate` | app.js:102-128 | For n concurrent requests under any schedule, including steps whose reply throws, the counter ends at n and the lock table ends empty. The replies sent are distinct values in 1..n. When no reply throws, they are exactly 1..n with no gaps. |
| `SerialCounter.FailedReplyThenRecovery` | app.js:117-128 | Request 0's reply throws. The lock is free again, request 1 still finishes, and the counter reaches 2. |

## Left out

- The Express plumbing (routing, body and query parsing, `app.listen`, `res.status`/`res.send`) is not modelled. It is framework I/O. Responses are datatypes with a `Status()` code.
- `fs.readFile` is replaced by a lookup in a map from paths to text. Every read error (a missing file, a directory, a permission error) appears as the path being absent from the map, and gives 404.
- `path.resolve` is modelled only for names without a separator. Because the filter removes `/` and `\`, no other name reaches it. The base `__dirname` is an arbitrary absolute path parameter.
- A non-string query value is not modelled. An array is rejected with 400 when one of its elements is exactly `..`, `/` or `\`; otherwise `replace` throws. An object makes the first check throw.
- A non-string body value for `/login` matches no stored string, the same behaviour as an absent field, which is modelled as `None`.
- The JavaScript regular expression works on UTF-16 code units, and the model works on characters. Both halves of a surrogate pair are outside the allowed set, so the filtered result is the same.
- `Login.Find`: returns the position of the first match rather than the record itself, as `users.find` does. `Login.Login` then takes the record at that position.
- `crypto.randomBytes` is not modelled. A token is any natural number not already in use, and `Arrive` requires that freshness.
- `Math.random` input generation (10,000 values below 1000) is not modelled. `FindDuplicates` takes any sequence of integers.
- `setTimeout` delays are not modelled. They are only the scheduling points between atomic steps, so there is no timing, and fairness is not modelled. `RunToEnd` shows that every reachable state, including one after a failed reply, can be run to completion, but not that a given fair scheduler would do so.
- `SerialCounter.Counter.Finish`: when sending the reply throws (`sent` is false), the counter is still raised and the lock still released. How the rejected promise then propagates through Express is not modelled.
- `counter` is a JavaScript number, so `counter++` stops changing at 2^53 and replies would repeat from there. The model's counter is an unbounded integer and does not capture this.
- The `/monitor` endpoint (`setInterval`, console output, the `intervals` array) is not modelled. It is timers and logging with no functional result beyond the growing array.
- The SQL query string is not modelled. It is built but never used.
- `test-fixes.js` is not modelled. It is an HTTP client script. Its traversal names are checked by `FileServer.ScriptedTraversalNamesRefused`, and its unique-counter expectation by `SerialCounter.Simulate`.
