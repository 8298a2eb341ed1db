# api-server core, modelled in Dafny

This project models the decision logic of the `api-server` backend and its dashboard, and proves properties of it. It covers six parts:

- **The WebSocket notification hub** (`src/services/websocket.ts`):
  - the registry of live connections per user;
  - the connect, message and close handlers of `/ws`, including the dispatch of a parsed frame to its reply and the parse-error path;
  - `broadcastToAll` and `broadcastToUser`.
- **The fixed-window rate limiter and the request validator** (`src/middleware/security.ts`). The validator includes JavaScript's `parseInt` as it reads the `content-length` header.
- **The health routes** (`src/routes/health.ts`):
  - the memory and disk checks;
  - how `/health/detailed` folds check results into one status and an HTTP code;
  - the `/health/ready` decision.
- **The environment configuration** (`src/config/environment.ts`):
  - the constraints the schema puts on each variable, and its defaults;
  - the `NODE_ENV` predicates;
  - `getCorsOrigins`.
- **The dashboard page** (`dashboard/src/pages/Dashboard.tsx`): the stat cards, the five most recent tasks and the active-projects panel.
- **The projects page** (`dashboard/src/pages/Projects.tsx`): the case-insensitive search and the empty-state heading.

Everything is a pure function over immutable values:

- A JavaScript `Map` iterates in insertion order. The registry is therefore a sequence of `(userId, connections)` entries, and the rate-limit store is a map from client address to window.
- A connection is represented by its identity.
- Inputs stand in for everything the hub, the limiter and the health routes get from outside:
  - the clock reading;
  - the outcome of each socket send that the code guards: the reply inside the message handler's `try`, and each send of the two broadcast loops;
  - the result of `JSON.parse`;
  - the heap figures;
  - the database and Redis probe results.

Three behaviours of the code shape the model:

- Registering a connection appends it to the user's list, even if it is already there. Registration is not idempotent.
- Subscribe frames are only acknowledged. No subscription state is kept, and `broadcastToAll` reaches every registered connection.
- A connection is removed under the user id it registered with, which the close handler captured.

Modules, one per file:

| file | module | contents |
|---|---|---|
| `wrappers.dfy` | `Wrappers` | `Option` and `Result` |
| `seqs.dfy` | `Seqs` | `indexOf`, `splice`, `filter`, `slice` and their lemmas |
| `text.dfy` | `Text` | `trim`, `split`/`join`, `toLowerCase`, `includes` |
| `arith.dfy` | `Arith` | `Math.ceil` and `Math.round` of an exact quotient |
| `registry.dfy` | `Connections` | the connection registry, with register and close |
| `protocol.dfy` | `Protocol` | envelopes and `handleWebSocketMessage` |
| `hub.dfy` | `Hub` | the `/ws` handler as a step function, with the invariant that the registry tracks the open connections |
| `transcripts.dfy` | `Transcripts` | the order of what each connection receives over interleaved traces |
| `broadcast.dfy` | `Broadcast` | the two fan-out loops |
| `rate_limit.dfy` | `RateLimit` | `rateLimitMiddleware` |
| `request_validation.dfy` | `RequestValidation` | `requestValidationMiddleware` and `parseInt` |
| `health.dfy` | `Health` | the health routes |
| `environment.dfy` | `Environment` | `envSchema`, the mode predicates and `getCorsOrigins` |
| `domain.dfy` | `Domain` | the project, agent and task records |
| `dashboard.dfy` | `Dashboard` | the dashboard page's derived views |
| `projects.dfy` | `Projects` | the projects page's search |

## Model

| member | source | states |
|---|---|---|
| Connections.Register | src/services/websocket.ts:17-20 | After connecting, the user's list is the old list (or none) with the new connection at its end. Every other user's list is unchanged. A new user's key goes last in Map order. Distinct keys with non-empty lists stay so. The multiset of all connections grows by exactly the new one. |
| Connections.Close | src/services/websocket.ts:47-59 | An unknown user leaves the registry as it is. Otherwise the user's list loses the first occurrence of the connection, and the key is deleted when the list becomes empty. Other users are unchanged, the registry stays well formed, and closing a filed connection removes exactly one copy from the multiset of all connections. |
| Connections.CloseKeyOrder | src/services/websocket.ts:47-59 | Closing keeps the order of the user keys, which is the Map's iteration order. A key is removed from its place exactly when closing empties its list; otherwise the key sequence is unchanged. |
| Connections.LookupSelfAfterDelete | src/services/websocket.ts:55-57 | With distinct keys, deleting a user's entry leaves no entry for that user. |
| Connections.LookupOtherAfterDelete | src/services/websocket.ts:55-57 | Deleting one user's entry leaves every other user's lookup unchanged. |
| Connections.CloseAbsentIsNoOp | src/services/websocket.ts:49-54 | Closing a connection that is not in its user's list, or whose user has no entry, changes nothing. |
| Connections.CloseUndoesRegister | src/services/websocket.ts:47-59 | Closing a connection right after registering it restores the registry exactly, Map order included, provided it was not registered before. |
| Connections.LookupInConns | src/services/websocket.ts:144-145 | A connection filed under a user is among the connections `broadcastToAll` visits. |
| Seqs.IndexOf | src/services/websocket.ts:51 | `indexOf` returns -1 exactly when the element is absent, and otherwise the position of its first occurrence. |
| Seqs.IndexOfAfterRemove | src/services/websocket.ts:53 | After `splice` removes another element, an element keeps its position, or moves one place earlier when the removed element came before it. |
| Seqs.RemoveFirst | src/services/websocket.ts:51-54 | The `indexOf`/`splice` pair removes the first copy of a present element: the result is the list before that first position followed by the list after it, so the order of the rest is kept. An absent element leaves the list alone. Membership of every other element is unchanged. |
| Protocol.Dispatch | src/services/websocket.ts:105-138 | Every parsed message gets exactly one reply: `pong` exactly for `ping`, echoing its `data`; `subscription_confirmed` exactly for the two subscribe types, naming the topic that follows `subscribe_`; and otherwise the error "Unknown message type: " followed by the rendered type. |
| Protocol.ReplyIsNeverWelcome | src/services/websocket.ts:105-138 | No inbound frame is answered with the welcome envelope. Every reply is a `pong`, a `subscription_confirmed` or an `error`. |
| Protocol.PingEchoes | src/services/websocket.ts:106-112 | A ping is answered by a pong carrying the same data. |
| Hub.UserIdOf | src/services/websocket.ts:14 | A missing or empty `userId` query value registers the connection under "anonymous". Any other value is used as it is. |
| Hub.Answer | src/services/websocket.ts:32-44 | The first send for a frame is always its reply. A malformed frame gets only the format error. A parsed frame whose reply send succeeds gets only that reply. A parsed frame whose reply send fails gets the reply and then one format error, because that send sits inside the same `try`. |
| Hub.Step | src/services/websocket.ts:13-59 | On connect, the connection is appended under its user and receives one welcome. An inbound frame leaves the registry unchanged, and every send it causes goes back to the same connection; a malformed frame causes exactly one format error. A close sends nothing. Every step keeps the registry well formed. |
| Hub.SessionTranscript | src/services/websocket.ts:25-44 | A new connection that then receives frames, each answered successfully, gets the welcome first and then exactly one reply per frame, in arrival order. The welcome never comes again. |
| Hub.FramesTranscript | src/services/websocket.ts:32-44 | A run of successfully answered frames leaves the registry unchanged and sends exactly the replies, in order, to that connection. |
| Hub.OpenKeepsTracks | src/services/websocket.ts:17-20 | Registering a fresh connection keeps the registry in step with the open connections: each open connection appears exactly once, under its user, and no list is empty. |
| Hub.CloseKeepsTracks | src/services/websocket.ts:47-59 | Closing an open connection removes exactly it, and the registry stays in step with the remaining open connections. |
| Hub.CloseUnknownIsNoOp | src/services/websocket.ts:49-58 | Closing a connection that is not open changes nothing. |
| Hub.TraceKeepsTracks | src/services/websocket.ts:13-59 | Along any sequence of connects, frames and closes, the registry holds each open connection exactly once, under its user, and maps no user to an empty list. |
| Hub.EmptyTracksNothing | src/services/websocket.ts:10 | The registry starts empty, which tracks no open connection. |
| Transcripts.WelcomeFirst | src/services/websocket.ts:13-59 | Over any valid interleaving of connects, frames and closes in which no connection is reopened, and whatever the outcome of each reply, a send is the welcome exactly when it is the first send to a connection that was not open at the start. So every connection the trace opens gets the welcome before anything else and never again. Every send goes to a connection that was open at the start or that the trace opens. |
| Broadcast.BroadcastToAll | src/services/websocket.ts:141-153 | Every registered connection is tried exactly once, user by user in Map order and in list order within a user. The message reaches exactly the connections whose send succeeds, whatever failed before them. |
| Broadcast.TrySend | src/services/websocket.ts:145-151 | The inner loop tries each connection of one list once, in order, and a failing send does not stop it. |
| Broadcast.BroadcastToUser | src/services/websocket.ts:155-167 | Nothing is tried for a user without an entry. Otherwise exactly that user's connections are tried, in order, and all of them are registered connections. Delivery is exactly to those whose send succeeds. |
| RateLimit.Sweep | src/middleware/security.ts:16-20 | Exactly the windows that ended strictly before now are dropped. The rest are kept unchanged. |
| RateLimit.Step | src/middleware/security.ts:11-48 | See the rate-limit breakdown below this table. |
| RateLimit.WithinWindow | src/middleware/security.ts:32-43 | Inside an open window the requests are counted one by one, and the window's end does not move. A request passes exactly while its count stays within the limit. |
| RateLimit.FirstLimitPass | src/middleware/security.ts:23-43 | Exactly the first `limit` requests of a window pass. |
| RateLimit.SweepIdempotent | src/middleware/security.ts:16-20 | Sweeping twice at the same instant is the same as sweeping once. |
| RateLimit.StatusOf | src/middleware/security.ts:36-43 | A rejected request is answered with 429 exactly when the limiter rejects it. An accepted request sets no status. |
| RequestValidation.Validate | src/middleware/security.ts:55-76 | 413 exactly when a non-empty `content-length` parses to more than 10 MiB. Otherwise 415 exactly for POST, PUT or PATCH with a non-empty content type that does not contain "application/json". Otherwise the request passes. |
| RequestValidation.StatusOf | src/middleware/security.ts:58-70 | An oversized body is refused with 413 and an unsupported media type with 415, each exactly in that case. A pass sets no status. |
| RequestValidation.ParseDecimal | src/middleware/security.ts:57 | `parseInt` reads back the decimal form of every natural number. |
| RequestValidation.ParseSkipsWhitespace | src/middleware/security.ts:57 | Leading whitespace never changes what `parseInt` reads. |
| RequestValidation.SizeBoundary | src/middleware/security.ts:57 | A declared size of exactly 10485760 bytes passes the size check and 10485761 bytes does not. |
| RequestValidation.MediaTypeOnlyForWrites | src/middleware/security.ts:66-75 | Methods other than POST, PUT and PATCH, and requests without a content type, are never refused for their media type. |
| RequestValidation.JsonWithCharsetPasses | src/middleware/security.ts:68 | "application/json; charset=utf-8" passes the media-type check. |
| Health.Overall | src/routes/health.ts:57-65 | The overall status is unhealthy exactly when some check is unhealthy. Otherwise it is degraded exactly when some check is degraded. Otherwise it is healthy exactly when every check is. |
| Health.OverallIsWorst | src/routes/health.ts:57-65 | The handler's two `some` tests compute the worst status of the list, healthy when the list is empty. |
| Health.HttpCode | src/routes/health.ts:59-64 | `/health/detailed` answers 503 exactly when the overall status is unhealthy, and 200 otherwise. |
| Health.MemoryStatus | src/routes/health.ts:148-159 | Memory is unhealthy when used·100 > 90·total, degraded when 75·total < used·100 ≤ 90·total, and healthy otherwise. |
| Health.MemoryStatusMatchesPercent | src/routes/health.ts:152-159 | For a non-empty heap, the integer comparisons decide the same as the thresholds on the exact percentage used/total·100. |
| Health.MemoryBoundaries | src/routes/health.ts:155-159 | Exactly 90% is degraded, exactly 75% is healthy, and anything above 90% is unhealthy. |
| Health.MemoryMonotone | src/routes/health.ts:155-159 | Using more of the same heap never improves the memory status. |
| Health.MemoryDetailsOf | src/routes/health.ts:161-168 | The megabyte figures are the heap sizes rounded to the nearest MiB. The percentage is absent exactly for an empty heap. Otherwise it is the used/total ratio times 100 rounded half-up: it lies within half a point of the exact ratio, below it by at most a half and above it by less than a half. It is at most 100 when used ≤ total. |
| Health.CheckMemory | src/routes/health.ts:148-169 | The memory check reports the threshold status with its details. For a non-empty heap the reported percentage never contradicts the status: it is at least 90 when unhealthy, between 75 and 90 when degraded, and at most 75 when healthy. |
| Health.ReportedPercentAgrees | src/routes/health.ts:152-166 | The rounded percentage lies on the same side of each threshold as the exact ratio the status is decided on, with the threshold itself included on both sides. |
| Health.CheckDisk | src/routes/health.ts:171-178 | The disk check always reports healthy. |
| Health.Statuses | src/routes/health.ts:58 | The statuses are those of the database, memory and disk checks, plus Redis exactly when it was checked. |
| Health.Detailed | src/routes/health.ts:36-70 | The Redis check is present exactly when `REDIS_URL` is set and non-empty. The database, memory and disk results are reported as they are. The overall status is the worst of the reported statuses, and the code is 503 exactly when that status is unhealthy. |
| Health.DetailedIgnoresDisk | src/routes/health.ts:45-65 | The overall status is the worst of the database status, the memory status and, when configured, the Redis status. The disk check never changes it. |
| Health.ReadinessOf | src/routes/health.ts:78-98 | Ready exactly when the database probe returns a status other than unhealthy. The "database unhealthy" refusal comes exactly when the probe returns unhealthy. The error refusal comes exactly when the probe throws, and it carries the probe's message. |
| Health.ReadyCode | src/routes/health.ts:83-96 | `/health/ready` answers 503 exactly when it is not ready. |
| Health.ReadyAgreesWithDetailed | src/routes/health.ts:58-96 | For any database status, `/health/ready` answers the same code that `/health/detailed` would give with the database as its only check. |
| Health.DegradedDatabaseIsReady | src/routes/health.ts:83-91 | A degraded database still lets the service report ready. |
| Environment.ParseNodeEnv | src/config/environment.ts:9 | NODE_ENV defaults to development. A set value is accepted exactly when it is one of the three names, and it maps to the mode of that name. |
| Environment.ParseLogLevel | src/config/environment.ts:29 | LOG_LEVEL defaults to info. A set value is accepted exactly when it is one of the four level names, and it maps to that level. |
| Environment.ParseNumber | src/config/environment.ts:10 | An unset numeric variable takes its default. A set one is accepted exactly when it is a number within its bounds, and it keeps its value. |
| Environment.ParseString | src/config/environment.ts:14-17 | A required string is accepted exactly when it is set and its length in UTF-16 code units, which is what zod's `min` counts, reaches the minimum. An accepted string keeps its value. |
| Environment.ParseEnv | src/config/environment.ts:8-40 | Every configuration the schema accepts is valid: PORT in 1..65535, non-empty DATABASE_URL, JWT_SECRET of 32 or more characters, and positive rate limit, window and timeouts. A rejection names at least one variable. |
| Environment.Defaults | src/config/environment.ts:8-35 | With only DATABASE_URL and JWT_SECRET set, every other setting takes its default: development, 3001, 0.0.0.0, 100, 15, info, 5000 and 30000. |
| Environment.ParseUnparse | src/config/environment.ts:8-40 | Every valid configuration, written back as variables, parses to itself. So the schema accepts exactly the valid configurations. |
| Environment.RejectsOutOfRange | src/config/environment.ts:10-26 | A PORT outside 1..65535, or a rate limit or window that is not positive, makes validation fail. |
| Environment.ExactlyOneMode | src/config/environment.ts:43-45 | Exactly one of `isDevelopment`, `isProduction` and `isTest` holds. |
| Environment.CorsOrigins | src/config/environment.ts:48-53 | An unset or empty CORS_ORIGINS gives the flag, which is true exactly in development. Otherwise the value is the comma-join of comma-free segments, and the origins are those segments trimmed, in order and one per segment (commas + 1), empty ones included. No origin holds a comma, and none starts or ends with whitespace. |
| Environment.CorsTrimsSegments | src/config/environment.ts:52 | A non-empty CORS_ORIGINS written as comma-free segments gives exactly those segments, each trimmed, in order. |
| Environment.TrimAll | src/config/environment.ts:52 | Each segment is trimmed in place: same count, same order. |
| Environment.CorsRoundTrip | src/config/environment.ts:52 | A list of comma-free origins without surrounding whitespace, joined with commas, comes back as the same list. |
| Text.Trim | src/config/environment.ts:52 | `trim` removes exactly the whitespace at both ends: the result is a slice of the input with only whitespace outside it, and it neither starts nor ends with whitespace. |
| Text.TrimIdempotent | src/config/environment.ts:52 | Trimming twice is trimming once. |
| Text.Split | src/config/environment.ts:52 | `split(',')` gives commas + 1 comma-free segments which, joined with commas, give back the input. |
| Text.SplitJoin | src/config/environment.ts:52 | Splitting undoes joining for a non-empty list of separator-free segments. |
| Text.Contains | dashboard/src/pages/Projects.tsx:21-22 | `includes` holds exactly when the pattern occurs at some position. |
| Text.ToLowerIdempotent | dashboard/src/pages/Projects.tsx:21-22 | Lower-casing twice is lower-casing once. |
| Seqs.Filter | dashboard/src/pages/Dashboard.tsx:35 | `filter` keeps exactly the elements that satisfy the predicate. |
| Seqs.FilterCountsMatches | dashboard/src/pages/Dashboard.tsx:35-41 | A filter's length is the number of positions whose element satisfies the predicate. |
| Dashboard.SuccessRate | dashboard/src/pages/Dashboard.tsx:38-40 | See the dashboard breakdown below this table. |
| Dashboard.StatsOf | dashboard/src/pages/Dashboard.tsx:33-42 | Data that has not loaded counts 0 everywhere. The totals are the list lengths. Active ≤ total projects and completed ≤ total tasks. The success rate is the rounded percentage of the completed count over the total, at most 100, and 0 without tasks. |
| Dashboard.StatsCount | dashboard/src/pages/Dashboard.tsx:35-41 | Active projects, completed tasks and active agents count exactly the records with status `active`, `completed` and `running`. |
| Dashboard.SuccessRateExtremes | dashboard/src/pages/Dashboard.tsx:38-40 | All tasks completed is 100%, and none completed is 0%. |
| Dashboard.SortNewestFirst | dashboard/src/pages/Dashboard.tsx:45 | The sort orders the tasks newest first and is a permutation of them. |
| Dashboard.RecentTasks | dashboard/src/pages/Dashboard.tsx:44-46 | The recent tasks are min(5, n) of the tasks, newest first, drawn from the tasks without duplication. There are none before the tasks load. |
| Dashboard.RecentTasksAreNewest | dashboard/src/pages/Dashboard.tsx:44-46 | Every task left out is no newer than the fifth one shown. |
| Dashboard.ActiveFive | dashboard/src/pages/Dashboard.tsx:173 | The selection is the first five active projects in list order, or all of them when fewer than five are active. It is empty exactly when no project is active. |
| Dashboard.ActivePanelAsWritten | dashboard/src/pages/Dashboard.tsx:173-187 | As written, the placeholder shows exactly while the projects have not loaded. Once they have, the panel lists the first five active projects in list order, possibly none. |
| Dashboard.EmptyPanelAsWritten | dashboard/src/pages/Dashboard.tsx:173-187 | With projects loaded and none active, the panel as written lists nothing and hides the placeholder, while the intended panel shows it. |
| Dashboard.PanelsAgreeOtherwise | dashboard/src/pages/Dashboard.tsx:173-187 | In every other case the written and the intended panel agree. |
| Dashboard.ActivePanel | dashboard/src/pages/Dashboard.tsx:173-187 | The placeholder shows exactly when there is no active project to list. Otherwise the panel lists the first five active projects in list order, or all of them when fewer are active. |
| Projects.FilterProjects | dashboard/src/pages/Projects.tsx:18-23 | The result is an order-preserving subsequence of the loaded projects, and empty before they load. A project is in it exactly when its lower-cased name or description contains the lower-cased term. |
| Projects.EmptyTermKeepsAll | dashboard/src/pages/Projects.tsx:20-23 | An empty search keeps every project, in order. |
| Projects.CaseInsensitiveTerm | dashboard/src/pages/Projects.tsx:21-22 | A term and its lower-case form select the same projects. |
| Projects.EmptyStateHeading | dashboard/src/pages/Projects.tsx:129-133 | A heading shows exactly when nothing is listed: "No projects found" only for a non-empty term, and "No projects yet" only for an empty one. |
| Projects.NoProjectsYetIff | dashboard/src/pages/Projects.tsx:129-133 | "No projects yet" shows exactly when there are no projects at all and no search term. |

`RateLimit.Step` covers one request:

- A client with no live window opens a new one: count 1, ending `API_RATE_WINDOW`·60·1000 ms from now.
- Otherwise the client's count grows by one and the window's end is unchanged.
- Other clients are swept or unchanged.
- The request is rejected with 429 exactly when the new count exceeds the limit. `retryAfter` is the ceiling of the remaining seconds, and it is non-negative for a non-negative window.
- An accepted request reports the limit, the remaining allowance (limit − count, which is non-negative) and the ceiling of the window's end in seconds.

`Dashboard.SuccessRate`:

- It is 0 without tasks.
- Otherwise it is 100·completed/total rounded to the nearest integer, with halves rounded up.
- It always lies in 0..100.

## Left out

- Socket transport, `JSON.parse` and `JSON.stringify`, timestamps and console logging are not modelled:
  - A frame arrives already parsed (`Frame`).
  - The outcome of each guarded send is an input.
  - Envelopes carry no timestamp.
- The two `setInterval` producers in src/services/websocket.ts:63-97 build payloads from `Math.random` and the clock. `Broadcast.BroadcastToAll` models one tick's fan-out of any message.
- Concurrency is left out. Node runs each handler to completion on one thread, so each event is one atomic `Hub.Step`.
- `securityHeadersMiddleware` (src/middleware/security.ts:78-95) only sets constant headers, so it is not modelled.
- These health routes are not modelled:
  - `/health` and `/health/live` return constant bodies.
  - `checkDatabase` and `checkRedis` only wait on a timer. Their results are inputs of `Health.Detailed` and `Health.ReadinessOf`.
  - `process.uptime` and the response-time header are not modelled.
- `dotenv` loading and the zod machinery are left out. Only the constraints and defaults the schema imposes are modelled.
- Environment.ParseNumber: a numeric variable arrives as the integer or NaN that `Number(text)` produced. Three things are not modelled:
  - the text conversion itself, including `Number("")` being 0;
  - fractional values such as an `API_RATE_WINDOW` of 1.5;
  - `Infinity`, which `Number("Infinity")` gives and `positive()` accepts, so zod accepts an unbounded rate limit, window or timeout that the model has no value for.
- Hub.UserIdOf: the query value is taken to be absent or one string. A `userId` given more than once, as in `?userId=a&userId=b`, reaches the handler as an array. An array is truthy, so the source files the connection under the array object itself. That is a new `Map` key for every such connection, and no `broadcastToUser` call with a string id ever reaches it. The model has no such key.
- Hub.Step: the welcome send on connect is taken to succeed. It is not inside a `try`, so a throwing send would abort the connect handler after registration, with the connection registered but no message handler attached. The `ws` library throws from `send` only while a socket is still connecting, and the handler runs on a socket that is already open.
- Dashboard.SuccessRate: the rounding is exact half-up on the rational 100·completed/total. JavaScript first computes the floating-point quotient, which can fall just below an exact half. For example, 29/200·100 gives 14.499999999999998, which rounds to 14 and not 15.
- Health.MemoryStatus: the thresholds are compared exactly. The source's floating-point percentage can land on the other side of 75 or 90 when the exact ratio equals a threshold.
- Health.MemoryDetailsOf: `usagePercent` is rounded from the exact ratio, so the same floating-point caveat applies. The MiB figures agree, because division by 1024 is exact in binary floating point.
- RequestValidation.ParseInt: digits are read into an unbounded integer. JavaScript loses precision above 2^53, which cannot change the comparison with 10 MiB.
- Text.ToLower: only ASCII letters are lower-cased. `toLowerCase` also maps other Unicode letters, and can change the string's length.
- Dashboard.SortNewestFirst: `createdAt` is taken as the instant `new Date(...).getTime()` gives, so date parsing and invalid dates (NaN) are not modelled. The stability of the sort is not stated as a property.
- `sort` mutates the cached task array in place. Only the sorted result is modelled.
- The status colours and icons, the rest of the rendering, and the projects page's loading skeleton (dashboard/src/pages/Projects.tsx:34-58) are not modelled.

## Findings

| source | as written | input that shows it | evidently intended | confidence | as-written member | corrected member |
|---|---|---|---|---|---|---|
| dashboard/src/pages/Dashboard.tsx:173-187 | `list.map(...) \|\| placeholder`: an array is truthy even when empty, so "No active projects" shows only while the projects are still loading | projects loaded, none with status `active` (e.g. one paused project): the panel renders an empty list and no placeholder | the placeholder whenever there is no active project to list, as the recent-tasks panel beside it does | not executed | Dashboard.ActivePanelAsWritten, Dashboard.EmptyPanelAsWritten | Dashboard.ActivePanel |
