# Verified model of the chat back end's stateful engines

The back end of this instant-messaging system is a gate server (HTTP and WebSocket sessions), a status
service (MySQL with Redis in front), and a small library that both use for load balancing, service
registration, health checks, database failover and Redis connections. Around the network and SQL calls
sit small stateful engines: a rate limiter, a token and a form parser, a two-way connection table, three
pools and selectors, a cache, a write queue and a heartbeat. This project models those engines in Dafny
4.11 and proves what they promise. `dafny verify dfyconfig.toml` checks everything.

Each engine that updates fields in place is a class here too. Its methods are proved equal to functions
on values (tables, pools, queues), and the theorems are lemmas about those functions: invariants of
every run, bounds over every interval of time, round trips, conservation laws and refinements.

| file | source | main results |
|---|---|---|
| RateLimiter.dfy | Services/GateServer/http_session.cpp | sharp sliding-window bound; one shared table is as good as one limiter per address |
| FormData.dfy, Token.dfy, Text.dfy | Services/GateServer/http_session.cpp | form, session-id and token round trips |
| ConnectionManager.dfy | Services/GateServer/connection_manager.cpp | the two indexes agree in every run; cleanup is exact |
| LoadBalancer.dfy | Services/utils/load_balancer.cpp | round-robin fairness; exact weighted counting |
| ServiceRegistry.dfy | Services/utils/service_registry.cpp, Services/utils/health_checker.cpp | lockstep of registry and balancer; what a health sweep achieves |
| DatabaseManager.dfy | Services/utils/database_manager.cpp | exactly when failover terminates, and that it then succeeds exactly when it can |
| Friendship.dfy | Services/StatusServer/status_service_impl.cpp | half friendships under every interleaving |
| StatusCache.dfy, FriendsCache.dfy, RedisStore.dfy, StatusService.dfy | Services/StatusServer/status_service_impl.cpp, Services/utils/redis_manager.cpp | exactly when the status cache refines a plain map; the friends-list round trip |
| ClientPool.dfy | Services/GateServer/status_client_manager.cpp, Services/GateServer/websocket_session.cpp | exclusive, conserved clients |
| RedisPool.dfy | Services/utils/redis_manager.cpp | every context in exactly one place, none freed twice |
| WebsocketSession.dfy | Services/GateServer/websocket_session.cpp | no message dropped, doubled or reordered; heartbeat time bounds |

## How the source is read

- The clock, random numbers, health probes and the success of every database query, Redis command,
  connection and asynchronous write are parameters, so each theorem holds for all of them. Clock
  readings are nanoseconds; `duration_cast` to seconds is truncation toward zero (`Clock.WholeSeconds`).
- Some functions take a non-recursive mutex their caller already holds
  (Services/GateServer/websocket_session.cpp:228, 236 and 245, and again 270 and 273;
  Services/GateServer/connection_manager.cpp:99 and 116 with 24; Services/utils/redis_manager.cpp:40
  and 59 with 98). As written those calls would block. The model gives them their intended meaning: the
  inner function runs as part of the caller's critical section, one atomic step.
- The Redis pool is guarded by two mutexes, one in `initialize` and `disconnect` and another in
  `getConnection` and `returnConnection`. The model takes each of the four as one atomic step.
- `updateHealthStatus`, `removeServiceInstance` and `unregisterService` act on the first entry with the
  endpoint. Registration accepts the same endpoint twice, so results that need unique endpoints say so;
  `HealthChecker.SweepIsCompleteIff` and `DatabaseManager.RetriesEndIff` say exactly what duplicates do
  to a sweep and to failover. Weights may be negative too: `Selection.WeightIsHonouredIff` says which
  instances then still get their share.
- The first request of a window is granted whatever the limit says, so the limiter's bounds use
  `Limit(max)`, the larger of `max` and 1.
- An `INSERT IGNORE` whose foreign key has no user reports success and adds no row
  (Docker/mysql/init/01-create-tables.sql:50-58). So an AddFriend that reports success put both edges in
  exactly when both users exist (`Friendship.SuccessMeansFriends`).
- Rows the schema seeds (Docker/mysql/init/01-create-tables.sql:66-68) start with no cache entry, and a
  missing hash reads as a hit that says OFFLINE. `StatusCache.UncachedRowReadsOffline` shows the
  effect. So the cache results are per user and from any start: `AnswersAreLastWrittenIff` says exactly
  when the answers about a user are right, whatever the entries of other users.
- `addConnection` keeps the old activity time of a session it already knows. Callers are taken to name
  only their own sessions (`ConnectionManager.Owns`), which holds for freshly drawn ids;
  `AddKeepsAgreement` and `RemoveKeepsAgreement` show that agreement needs exactly this.
- The heartbeat timer may fire up to `late` after it is due, and a session's silence is counted from its
  construction until the first read. The timer is armed after the WebSocket handshake, so before the
  first tick and the first read the time bound needs a handshake shorter than 90 seconds, and exactly
  then (`Heartbeat.UnsettledTimeoutIsLate`).

## Model

| member | source | states |
|---|---|---|
| RateLimiter.RateLimiter.IsAllowed | Services/GateServer/http_session.cpp:27-57 | the answer and the whole new table: one address's window is opened, replaced after more than the window's whole seconds, counted up or left |
| RateLimiter.WindowAccounts | Services/GateServer/http_session.cpp:39-56 | the charging invariant: what the current window says about the requests granted in any interval of window + 1 seconds |
| RateLimiter.SlidingBoundAlone | Services/GateServer/http_session.cpp:27-57 | one address: at most 2 * limit - 1 grants in any half-open interval of window + 1 seconds |
| RateLimiter.SlidingBound | Services/GateServer/http_session.cpp:27-57 | the same bound for every address in every interleaved run of all addresses with a clock that does not go back |
| RateLimiter.DefaultSlidingBound | Services/GateServer/http_session.h:34 | with the default arguments, at most 19 requests of one address in any 61 seconds |
| RateLimiter.SlidingBoundIsSharp | Services/GateServer/http_session.cpp:42-52 | for every limit and window some run and interval reach 2 * limit - 1 |
| RateLimiter.WindowOpener | Services/GateServer/http_session.cpp:33-51 | behind every window is a granted request that opened it, and its count is the number of grants since |
| RateLimiter.RefusalIsEarned | Services/GateServer/http_session.cpp:49-56 | a refused request has a granted one less than window + 1 seconds before it, from which exactly the limit was granted |
| RateLimiter.TableIsolates | Services/GateServer/http_session.cpp:28-40 | after any interleaving, the shared table holds for each address the window a limiter of its own would hold |
| RateLimiter.DecisionsAreIndependent | Services/GateServer/http_session.cpp:27-57 | every decision of an interleaved run is the decision of the run filtered to that address |
| FormData.DecodeValue | Services/GateServer/http_session.cpp:225-236 | the index loop computes percent decoding as defined on suffixes, or the exception of stoi |
| FormData.ParseNext | Services/GateServer/http_session.cpp:212-242 | one turn of the outer loop: the cursor goes strictly forward and the rest of the scan is what is left to do |
| FormData.ParsePostData | Services/GateServer/http_session.cpp:207-245 | the two nested loops compute the scan of the whole body, or end in the exception |
| FormData.DecodeEncode | Services/GateServer/http_session.cpp:225-236 | decoding undoes every encoding of every byte string: '+' for space, %hh from the hex printer, any safe literals |
| FormData.DecodeFront | Services/GateServer/http_session.cpp:225-236 | an encoded front decodes to what it encodes, whatever follows it |
| FormData.BrokenEscapes | Services/GateServer/http_session.cpp:227-230 | a '%' with fewer than two characters after it stands for itself, and one that stoi cannot read is the exception |
| FormData.StoreEncodedPair | Services/GateServer/http_session.cpp:218-239 | an encoded key=value parameter sets exactly that key to that value |
| FormData.ScanTakesApart | Services/GateServer/http_session.cpp:211-216 | the scan of a body joined with '&' visits exactly the parts, in order, empty ones included |
| FormData.ParseJoined | Services/GateServer/http_session.cpp:207-245 | parsing any parts joined with '&' stores them one after the other |
| FormData.BareParamsIgnored | Services/GateServer/http_session.cpp:218-219 | a part without '=' changes nothing, wherever it stands |
| FormData.FormRoundTrip | Services/GateServer/http_session.cpp:207-245 | encoding any list of pairs and parsing it gives back the table of the pairs |
| FormData.StoreAllLastWins | Services/GateServer/http_session.cpp:239 | that table has exactly the keys named, each with the value of the last pair naming it |
| FormData.GenerateSessionId | Services/GateServer/http_session.cpp:127-135 | the stream loop prints 64 digits, those of byte i at position 2i |
| FormData.SessionIdInjective | Services/GateServer/http_session.cpp:118-136 | different random bytes give different session ids |
| Text.Hex2RoundTrip | Services/GateServer/http_session.cpp:132 | two printed hexadecimal digits read back as the byte |
| Text.DecimalRoundTrip | Services/StatusServer/status_service_impl.cpp:157 | stoi of a printed integer is that integer if it fits an int, and an exception otherwise |
| Text.StoiReads | Services/StatusServer/status_service_impl.cpp:157 | stoi passes over white space and a sign, reads the digits and stops at the first other character |
| Text.DecimalInjective | Services/StatusServer/status_service_impl.cpp:130 | different integers print differently |
| Token.VerifyToken | Services/GateServer/http_session.cpp:78-115 | accepts exactly "token_" + u + "_" + x with u non-empty and '_'-free and '_' in x, and yields u; a rejection leaves the out-parameter alone, except that it empties it for an empty u |
| Token.TokenOfUnique | Services/GateServer/http_session.cpp:78-115 | a token names at most one user |
| Token.GeneratedTokenNamesUser | Services/GateServer/http_session.cpp:60-75 | every generated token is a token of its decimal user id and has no '&' |
| Token.GeneratedTokensDiffer | Services/GateServer/http_session.cpp:60-75 | tokens for different users, times or salts are different |
| Token.VerifyHandshake | Services/GateServer/http_session.cpp:458-523 | the handshake succeeds exactly for a token read from target, Authorization or Token header in that order, and only then sets the user id |
| Token.FirstParameter | Services/GateServer/http_session.cpp:463-464 | "token=" after a prefix without it is found at the end of that prefix, even across the seam |
| Token.TargetTokenIsWhole | Services/GateServer/http_session.cpp:463-472 | a token without '&' after the first "token=" is extracted whole, whether or not "&..." follows |
| Token.TokenRoundTrip | Services/GateServer/http_session.cpp:458-523 | a generated token placed in the query is what the handshake reads and names that user and no other, whatever the clock, salt, headers and text around it |
| Token.HandshakeTokenSource | Services/GateServer/http_session.cpp:463-498 | which of target, bearer header and Token header the token is taken from, and what counts as a bearer header |
| Token.HeaderRoundTrip | Services/GateServer/http_session.cpp:475-498 | a generated token sent in either header, with no "token=" in the target, is read and names that user and no other |
| ConnectionManager.ConnectionManager.AddConnection | Services/GateServer/connection_manager.cpp:11-16 | the new table: the entry is added unless present, the reverse index always set |
| ConnectionManager.ConnectionManager.RemoveConnection | Services/GateServer/connection_manager.cpp:23-36 | the new table: one session less, and a user without sessions is dropped |
| ConnectionManager.ConnectionManager.IsUserOnline | Services/GateServer/connection_manager.cpp:43-46 | true exactly if some session maps to the user in the reverse index |
| ConnectionManager.ConnectionManager.GetOnlineUsers | Services/GateServer/connection_manager.cpp:52-62 | the values of the reverse index, each once |
| ConnectionManager.ConnectionManager.GetSessionCount | Services/GateServer/connection_manager.cpp:69-76 | the number of sessions that map to the user in the reverse index |
| ConnectionManager.ConnectionManager.UpdateSessionActivity | Services/GateServer/connection_manager.cpp:83-92 | the new table: only the activity time of a listed session changes |
| ConnectionManager.ConnectionManager.CleanupExpiredSessions | Services/GateServer/connection_manager.cpp:98-119 | the expired sessions are collected and removed one after the other; in an agreeing table exactly those whose whole idle seconds do not exceed the timeout stay, unchanged, and the indexes still agree |
| ConnectionManager.AddKeepsAgreement | Services/GateServer/connection_manager.cpp:11-16 | adding keeps the indexes in agreement if and only if the session is new or the user's own |
| ConnectionManager.AddListed | Services/GateServer/connection_manager.cpp:11-16 | adding lists the session with the data given, unless it was listed already, and changes no other entry |
| ConnectionManager.RemoveKeepsAgreement | Services/GateServer/connection_manager.cpp:23-36 | removing keeps the agreement if and only if the session is unknown or the user's own |
| ConnectionManager.RemoveListed | Services/GateServer/connection_manager.cpp:23-36 | removal unlists exactly that session of that user and leaves every other entry as it was |
| ConnectionManager.TouchKeepsAgreement | Services/GateServer/connection_manager.cpp:83-92 | activity updates list and unlist nothing |
| ConnectionManager.TouchListed | Services/GateServer/connection_manager.cpp:83-92 | an activity update sets the time of that listed session, keeps its address and changes no other entry |
| ConnectionManager.ExpiredIff | Services/GateServer/connection_manager.cpp:106-108 | expired means idle for a second more than the timeout, in spite of truncation |
| ConnectionManager.CleanupIsExact | Services/GateServer/connection_manager.cpp:98-119 | removing the expired sessions, in any order, keeps the agreement and leaves exactly the survivors as they were |
| ConnectionManager.RunsAgree | Services/GateServer/connection_manager.cpp:11-119 | in every run of calls on callers' own sessions, cleanups included, s is under u exactly if the reverse index says u, and no user is left without a session |
| ConnectionManager.RunsFollowCalls | Services/GateServer/connection_manager.cpp:11-119 | in every such run the table is one independent record per session: listed exactly if added and since neither removed nor found expired, with its address and the time last touched, or added |
| LoadBalancer.LoadBalancer.AddServiceInstance | Services/utils/load_balancer.cpp:22-32 | a healthy instance at the end of the service's list and the index back at 0, nothing else changed |
| LoadBalancer.LoadBalancer.RemoveServiceInstance | Services/utils/load_balancer.cpp:34-49 | the first instance with the endpoint is gone; an unknown service gets an empty list |
| LoadBalancer.LoadBalancer.UpdateHealthStatus | Services/utils/load_balancer.cpp:72-94 | through shared objects, exactly the first instance with the endpoint gets the flag |
| LoadBalancer.LoadBalancer.GetServiceInstances | Services/utils/load_balancer.cpp:96-106 | the instances of the service in order, none for an unknown service |
| LoadBalancer.LoadBalancer.GetNextInstanceRoundRobin | Services/utils/load_balancer.cpp:108-132 | the object at the next healthy position, with the stored index advanced modulo the healthy count |
| LoadBalancer.LoadBalancer.GetNextInstanceWeighted | Services/utils/load_balancer.cpp:134-175 | the object at the first healthy position whose running weight reaches the draw, the last one if none does |
| LoadBalancer.LoadBalancer.GetNextHealthyInstance | Services/utils/load_balancer.cpp:51-70 | dispatch by name with round robin as default; the returned object is the selected entry of the table, null if there is none |
| Selection.FirstMatchIsFirst | Services/utils/load_balancer.cpp:38-41 | the search finds the first entry with the endpoint |
| Selection.AddInstanceEffect | Services/utils/load_balancer.cpp:22-32 | a new instance is healthy, last and selectable, the index starts over, and no earlier entry and no other service changes |
| Selection.RemoveInstanceEffect | Services/utils/load_balancer.cpp:34-49 | the first entry with the endpoint goes, the others keep their order, no other service changes; without one nothing does |
| Selection.SetHealthEffect | Services/utils/load_balancer.cpp:72-94 | one flag changes, of the first entry with the endpoint, and nothing else in any service |
| Selection.HealthyExactly | Services/utils/load_balancer.cpp:110-115 | the filter keeps exactly the healthy instances, each once, in order |
| Selection.RoundRobinOrder | Services/utils/load_balancer.cpp:122-127 | from any stored index c, even one out of range, the i-th selection takes healthy instance (c + i) mod n, or none if n is 0 |
| Selection.RoundRobinIsFair | Services/utils/load_balancer.cpp:108-132 | over m selections every healthy instance is chosen at least floor(m / n) and at most ceil(m / n) times |
| Selection.FallbackUnreachable | Services/utils/load_balancer.cpp:161-174 | a draw up to the total weight is reached inside the loop, whatever the weights |
| Selection.PickInvertsSums | Services/utils/load_balancer.cpp:161-169 | for weights of any sign, instance i is chosen exactly for the draws above the largest running total before it and up to the largest with it |
| Selection.DrawCount | Services/utils/load_balancer.cpp:153-169 | the exact number of the draws 1..total that choose instance i, for weights of any sign |
| Selection.WeightIsHonouredIff | Services/utils/load_balancer.cpp:134-175 | an instance gets as many draws as its weight if and only if the weight is 0, or positive with the running total before it the largest so far and the one with it within the total |
| Selection.WeightsAreHonouredIff | Services/utils/load_balancer.cpp:134-175 | every instance gets as many draws as its weight if and only if no weight is negative |
| Selection.WeightedSelectionCounts | Services/utils/load_balancer.cpp:134-175 | the draws that make the balancer return an instance are the ones counted, and number its weight where no healthy weight is negative |
| Selection.SelectionIsHealthy | Services/utils/load_balancer.cpp:51-70 | under every algorithm the selected instance is healthy, and none is selected exactly when none is healthy |
| Selection.AlgorithmByName | Services/utils/load_balancer.cpp:51-70 | which algorithm a name means, that each least-connections draw picks its own healthy instance, and that only round robin moves an index |
| ServiceRegistry.ServiceRegistry.RegisterService | Services/utils/service_registry.cpp:9-23 | the new registration list and the new balancer tables |
| ServiceRegistry.ServiceRegistry.UnregisterService | Services/utils/service_registry.cpp:25-42 | the first registration of the endpoint is erased, and the balancer's first instance with it |
| ServiceRegistry.RegisterKeepsLockstep | Services/utils/service_registry.cpp:9-23 | registering keeps both tables on the same (host, port, weight) sequences |
| ServiceRegistry.RegisterEffect | Services/utils/service_registry.cpp:9-23 | the registration comes last, as given, and no other service changes |
| ServiceRegistry.UnregisterKeepsLockstep | Services/utils/service_registry.cpp:25-42 | so does unregistering, duplicates and unknown services included |
| ServiceRegistry.HealthKeepsLockstep | Services/utils/load_balancer.cpp:72-94 | health reports change no endpoint and no weight |
| ServiceRegistry.HistoriesStayInLockstep | Services/utils/service_registry.cpp:9-42 | after any history of registrations, removals, reports and selections both tables name the same endpoints and weights in the same order |
| ServiceRegistry.RegistrationsAreCounted | Services/utils/service_registry.cpp:9-42 | after any history the balancer lists every endpoint as often as it was registered and not removed since, counted by the events alone |
| HealthChecker.HealthChecker.PerformHealthCheck | Services/utils/health_checker.cpp:56-65 | the probe result is what the balancer is told for the endpoint |
| HealthChecker.HealthChecker.CheckService | Services/utils/health_checker.cpp:32-34 | the inner loop reports every registration of the service in order |
| HealthChecker.HealthChecker.CheckAll | Services/utils/health_checker.cpp:23-35 | one pass over the snapshot, services in any order, sweeps every known service |
| HealthChecker.SweepReachesFirsts | Services/utils/health_checker.cpp:23-65 | each probe with a result of its own, a sweep sets exactly the first instance of each endpoint, to the endpoint's last result; later duplicates keep their flag |
| HealthChecker.SweepIsCompleteIff | Services/utils/health_checker.cpp:23-65 | every flag equals its probe after a sweep if and only if first and last probe of every endpoint agreed and the later duplicates' flags were right already |
| HealthChecker.SelectionAfterSweep | Services/utils/health_checker.cpp:23-65 | with unique endpoints the next selection has passed its probe, and is null exactly when all failed |
| DatabaseManager.DatabaseManager.AddDatabaseInstance | Services/utils/database_manager.cpp:57-63 | the instance is added to the balancer under the database service's name |
| DatabaseManager.DatabaseManager.UpdateInstanceHealth | Services/utils/database_manager.cpp:71-76 | passes the flag on to the balancer under the database service's name |
| DatabaseManager.DatabaseManager.Disconnect | Services/utils/database_manager.cpp:82-91 | leaves no handle and no connected flag, keeping the address; flag and handle agree |
| DatabaseManager.DatabaseManager.SelectInstance | Services/utils/database_manager.cpp:108-112 | the address of the next round-robin instance, or null if none is healthy |
| DatabaseManager.DatabaseManager.Open | Services/utils/database_manager.cpp:115-168 | connected exactly if the handle was allocated and the endpoint reachable; both failures leave no handle |
| DatabaseManager.DatabaseManager.ConnectImpl | Services/utils/database_manager.cpp:102-170 | an established connection is kept; otherwise one attempt, whose failure marks the instance; connected exactly when a handle is held |
| DatabaseManager.AttemptConnectsIff | Services/utils/database_manager.cpp:102-170 | an attempt connects to the next healthy instance, exactly if a handle can be had and it is reachable, and then changes no flag |
| DatabaseManager.FirstInstanceConnects | Services/utils/database_manager.cpp:57-112 | the first instance added to an empty service is what the next attempt selects, and connects to if reachable |
| DatabaseManager.FailedAttempt | Services/utils/database_manager.cpp:127-164 | a failed attempt marks the first instance of a healthy endpoint it could not connect to and changes no other entry; the healthy count drops by one unless that first instance was marked already |
| DatabaseManager.MarksOnlyUnreachableIff | Services/utils/database_manager.cpp:127-133 | a failure marks an unreachable instance only, if and only if a handle could be allocated or the instance was unreachable anyway |
| DatabaseManager.DuplicateDefeatsMarking | Services/utils/load_balancer.cpp:82-88 | a table that lists one unreachable endpoint twice: an attempt selects it, fails and changes nothing at all, so retries never end |
| DatabaseManager.FailureDecreases | Services/utils/database_manager.cpp:127-164 | where every healthy instance is the first with its endpoint, every failure, at mysql_init or at the connection, lowers the healthy count by exactly one, and the unreachable count exactly if the instance was unreachable |
| DatabaseManager.FailuresAreBounded | Services/utils/database_manager.cpp:102-170 | attempts that each meet their own handle allocation and reachability: n failures in a row lower the healthy count by n, and after as many as there were healthy instances nothing is selected any more |
| DatabaseManager.FailoverTerminates | Services/utils/database_manager.cpp:102-170 | repeated attempts end: connected, to a reachable instance, exactly if some healthy one is reachable, after at most as many failures as there are healthy unreachable ones, with only such marked |
| DatabaseManager.RetriesEndIff | Services/utils/database_manager.cpp:102-170 | over every table, duplicates included, retries against constant endpoints end if and only if some healthy instance is reachable or every healthy one is the first with its endpoint |
| Friendship.StepKeepsInv | Services/StatusServer/status_service_impl.cpp:251-274 | every transaction of every call keeps the half-edge invariant |
| Friendship.HalfEdgesHaveAnOwner | Services/StatusServer/status_service_impl.cpp:251-274 | under every interleaving with any transaction failing, an edge without its reverse belongs to a call pending at or failed at its second insert |
| Friendship.SymmetricAtQuiescence | Services/StatusServer/status_service_impl.cpp:251-274 | when every call has ended, none at a failed second insert, friendship is symmetric |
| Friendship.SuccessMeansFriends | Services/StatusServer/status_service_impl.cpp:264-267 | a call that reported success has both edges in the table if and only if both users exist |
| Friendship.AlreadyFriendsIsTrue | Services/StatusServer/status_service_impl.cpp:258-262 | a call is told the friendship exists only if its edge is in the table |
| Friendship.CallsMakeFriends | Services/StatusServer/status_service_impl.cpp:251-274 | in every run where no transaction fails, once all calls have ended the users of each are friends both ways |
| Friendship.CallsEnd | Services/StatusServer/status_service_impl.cpp:251-274 | every call has ended after at most three transactions of its own, whatever runs between them |
| Friendship.UninterruptedOutcome | Services/StatusServer/status_service_impl.cpp:251-274 | an uninterrupted call by its outcomes alone: refused exactly if a successful check finds the edge, otherwise successful exactly if both inserts are, each putting in its edge |
| Friendship.EdgesOnlyGrow | Services/StatusServer/status_service_impl.cpp:437-456 | no continuation of a run loses an edge |
| Friendship.ReverseCallRepairs | Services/StatusServer/status_service_impl.cpp:251-274 | a half edge is repaired by adding in the other direction, and a retry in the same direction changes nothing |
| StatusCache.StatusRoundTrip | Services/StatusServer/status_service_impl.cpp:56-64 | a status survives being stored as text; an unknown number becomes OFFLINE |
| StatusCache.StatusTexts | Docker/mysql/init/01-create-tables.sql:43 | the protocol's four numbers and the texts of the table's ENUM column correspond one to one |
| StatusCache.CacheStatusEffect | Services/StatusServer/status_service_impl.cpp:51-81 | a cache write changes what one user's entry answers, only if its first HSET succeeds, and no other user's |
| StatusCache.CacheWriteFields | Services/StatusServer/status_service_impl.cpp:66-70 | each field whose HSET succeeds is in the user's hash; no other hash and no sorted set changes |
| StatusCache.UpdateCoherence | Services/StatusServer/status_service_impl.cpp:24-49 | what an update does to the coherence of every user, from any state: two successful writes establish it, two failed ones keep it, a single one has it exactly if it writes what the other store says, and other users keep theirs |
| StatusCache.WriteBackCoherence | Services/StatusServer/status_service_impl.cpp:230-239 | writing a row's own status back makes its user coherent exactly if the first HSET succeeds or it was so already, and touches no other |
| StatusCache.TableIsLastWritten | Services/StatusServer/status_service_impl.cpp:353-382 | over every history the table is the last-written map |
| StatusCache.CoherentAfterIff | Services/StatusServer/status_service_impl.cpp:24-81 | over every history whose updates of the user agree, from any start, the user ends coherent if and only if it was touched or started coherent |
| StatusCache.AnswersAreLastWrittenIff | Services/StatusServer/status_service_impl.cpp:171-205 | per user and from any start: every answer, from cache or table, is the last status written, or OFFLINE if none, if and only if the history touched the user or its entry was right at the start |
| StatusCache.AnswerExistsIff | Services/StatusServer/status_service_impl.cpp:171-205 | there is an answer exactly if the cache can be read, or the table can and has a row |
| StatusCache.AnswersWithoutCache | Services/StatusServer/status_service_impl.cpp:188-202 | over every history: without the cache, a user with a row, from the start or by a successful update, is answered the last status written; without either, not at all |
| StatusCache.UncachedRowReadsOffline | Services/StatusServer/status_service_impl.cpp:83-119 | a row that starts uncached reads OFFLINE, although the table says ONLINE |
| StatusCache.CoherentWithEmptyCache | Services/StatusServer/status_service_impl.cpp:83-119 | beside an empty cache exactly the users whose table status is OFFLINE, or who have no row, start coherent |
| StatusService.StatusService.UpdateUserStatusInDB | Services/StatusServer/status_service_impl.cpp:353-382 | the row is written exactly if the query succeeds |
| StatusService.StatusService.UpdateUserStatusInCache | Services/StatusServer/status_service_impl.cpp:51-81 | the three HSETs, each failing on its own, and whether all took effect |
| StatusService.StatusService.UpdateUserStatus | Services/StatusServer/status_service_impl.cpp:24-49 | table and cache are both written; success is the database's alone |
| StatusService.StatusService.GetUserStatusFromCache | Services/StatusServer/status_service_impl.cpp:83-119 | a hit whenever Redis answers; a missing hash or field is OFFLINE |
| StatusService.StatusService.GetUserStatusFromDB | Services/StatusServer/status_service_impl.cpp:384-435 | the row's status, if the query succeeds and there is a row |
| StatusService.StatusService.GetUserStatus | Services/StatusServer/status_service_impl.cpp:171-205 | the cache's answer if it can be read, otherwise the table's if it can and has a row, otherwise none |
| StatusService.StatusService.AddFriendToDB | Services/StatusServer/status_service_impl.cpp:437-456 | the edge is in the table after a successful insert exactly if both users exist, or it was before |
| StatusService.StatusService.AddFriend | Services/StatusServer/status_service_impl.cpp:251-274 | the answer and the table by the outcomes alone: two strangers become friends both ways if every query succeeds; and it is the uninterrupted run of the AddFriend state machine |
| StatusService.StatusService.GetFriendsIds | Services/StatusServer/status_service_impl.cpp:322-351 | exactly the friends of the user, each once, in the query's order; none if it fails |
| StatusService.StatusService.CacheFriendsList | Services/StatusServer/status_service_impl.cpp:121-141 | the store after the DEL and the ZADDs that succeed |
| StatusService.StatusService.GetCachedFriendsList | Services/StatusServer/status_service_impl.cpp:143-169 | the integers of the sorted set in order; an empty list is a miss |
| StatusService.StatusService.FriendsFor | Services/StatusServer/status_service_impl.cpp:213-220 | the user's cached list if it can be read and is not empty, in every other case the queried one, which refills the cache |
| StatusService.StatusService.FriendStatus | Services/StatusServer/status_service_impl.cpp:225-239 | one friend's status from cache or table, with the write-back |
| StatusService.StatusService.RepliesFor | Services/StatusServer/status_service_impl.cpp:225-246 | the loop's replies and the cache it leaves |
| StatusService.StatusService.GetFriendsStatus | Services/StatusServer/status_service_impl.cpp:207-249 | list lookup followed by the pass over the list, cache included |
| StatusService.FriendsPassCoherence | Services/StatusServer/status_service_impl.cpp:225-246 | the loop makes coherent exactly the users whose row it writes back, and spoils nobody |
| StatusService.FriendsPassIsFaithfulIff | Services/StatusServer/status_service_impl.cpp:225-246 | from any cache: the replies are, in order, the friends whose status could be read, each with the table's status, if and only if every reply from the cache is about a user coherent at the start or renewed earlier in the loop |
| StatusService.ListLookupKeepsStatuses | Services/StatusServer/status_service_impl.cpp:213-220 | looking a friends list up, refill included, changes no cached status |
| StatusService.LookedUpList | Services/StatusServer/status_service_impl.cpp:213-220 | which list a call works from, and that a hit leaves the cache alone |
| StatusService.RepliesNameFriends | Services/StatusServer/status_service_impl.cpp:225-246 | if every status can be read, from cache or table, every friend on the list is answered for, in its order |
| StatusService.FriendsStatusIsFaithfulIff | Services/StatusServer/status_service_impl.cpp:207-249 | the two together, for a whole GetFriendsStatus from any cache: when its replies are the table's statuses, and whom it leaves coherent |
| StatusService.FriendsPassKeepsCachedLists | Services/StatusServer/status_service_impl.cpp:225-246 | the loop's write-backs leave every cached friends list as it was |
| StatusService.OtherListsAreKept | Services/StatusServer/status_service_impl.cpp:207-249 | a whole GetFriendsStatus for one user leaves every other user's cached list as it was, whichever commands fail |
| StatusService.NextLookup | Services/StatusServer/status_service_impl.cpp:207-249 | the call after a cache miss works from exactly the friends that were cached, in the query's order, and misses again if there are none |
| FriendsCache.FriendsKeysDiffer | Services/StatusServer/status_service_impl.cpp:123 | different users have different keys |
| FriendsCache.CacheFriendsKeepsOthers | Services/StatusServer/status_service_impl.cpp:121-141 | refilling one user's list, whichever commands fail, leaves every other user's as it was |
| FriendsCache.AddFriendsAppends | Services/StatusServer/status_service_impl.cpp:129-131 | from an empty sorted set, adding distinct friends by position only appends |
| FriendsCache.ParseMembersAppend | Services/StatusServer/status_service_impl.cpp:155-162 | the loop reads member by member, in order, passing over what is not an int |
| FriendsCache.FriendsRoundTrip | Services/StatusServer/status_service_impl.cpp:121-169 | for distinct int ids, after a DEL the cache reads back, in order, exactly the friends whose ZADD succeeded |
| FriendsCache.KeptAll | Services/StatusServer/status_service_impl.cpp:129-131 | with no failed ZADD that is the whole list |
| FriendsCache.KeptIsSubsequence | Services/StatusServer/status_service_impl.cpp:129-131 | with failures it is a subsequence, at increasing positions |
| FriendsCache.RefillWithoutDelete | Services/StatusServer/status_service_impl.cpp:121-141 | if the DEL fails, and whichever ZADDs fail too, the list reads back as the friends whose ZADD succeeded if and only if every friend cached before is among them |
| RedisStore.ZAddKeeps | Services/utils/redis_manager.cpp:330-342 | ZADD keeps a sorted set ordered and one entry per member: the member gets its score, the rest stays |
| RedisStore.EntriesDetermineSet | Services/utils/redis_manager.cpp:344-365 | the order ZRANGE returns is determined by the entries alone |
| ClientPool.StatusClientManager.Initialize | Services/GateServer/status_client_manager.cpp:24-49 | the first call pools one new client per instance found, later ones do nothing |
| ClientPool.StatusClientManager.AcquireClient | Services/GateServer/status_client_manager.cpp:52-80 | the last pooled client, or a new one |
| ClientPool.StatusClientManager.ReleaseClient | Services/GateServer/status_client_manager.cpp:83-95 | back to the end of the pool, unless null or uninitialized |
| ClientPool.InitializesOnce | Services/GateServer/status_client_manager.cpp:24-49 | the first initialization pools one new client per instance found, and no later one changes anything |
| ClientPool.OpenEffect | Services/GateServer/websocket_session.cpp:23-33 | an initialized manager gives a session a pooled client whenever there is one, and it is marked for return |
| ClientPool.FailThenOpen | Services/GateServer/websocket_session.cpp:281-317 | a failing session gives its client back, and the next session to open gets that one |
| ClientPool.FailsOnce | Services/GateServer/websocket_session.cpp:281-317 | any further failure of a session releases nothing |
| ClientPool.OpenKeepsExclusive | Services/GateServer/websocket_session.cpp:23-33 | the client a session opens with is in no pool slot and no other session |
| ClientPool.OpenKeeps | Services/GateServer/websocket_session.cpp:23-33 | opening a session keeps exclusivity and the conservation law |
| ClientPool.FailKeeps | Services/GateServer/websocket_session.cpp:311-316 | so does failing one |
| ClientPool.ClientsAreExclusive | Services/GateServer/status_client_manager.cpp:24-95 | in every run no client is in two sessions, in a session and the pool, or in the pool twice |
| ClientPool.ClientsAreConserved | Services/GateServer/status_client_manager.cpp:24-95 | pooled plus outstanding clients always number the larger of the instances the first initialization found and the peak of simultaneous holders |
| RedisPool.RedisManager.CreateConnection | Services/utils/redis_manager.cpp:76-92 | a new context, or none, with one in error freed at once |
| RedisPool.RedisManager.Disconnect | Services/utils/redis_manager.cpp:97-109 | everything pooled is freed, in order, and nothing else |
| RedisPool.RedisManager.Initialize | Services/utils/redis_manager.cpp:39-68 | true exactly if the manager then counts as initialized; an initialized one is left as it was |
| RedisPool.RedisManager.GetConnection | Services/utils/redis_manager.cpp:151-171 | the last pooled context if it answers; otherwise it is freed and a new one made |
| RedisPool.RedisManager.ReturnConnection | Services/utils/redis_manager.cpp:177-189 | back to the pool, or freed if the pool is full |
| RedisPool.InitializeEffect | Services/utils/redis_manager.cpp:39-68 | an effective initialization succeeds exactly if every connection does; then the pool has that many more and counts as initialized, otherwise everything pooled is freed |
| RedisPool.InitializesOnce | Services/utils/redis_manager.cpp:42-45 | after a successful initialization every further one succeeds at once and changes nothing |
| RedisPool.TakeEffect | Services/utils/redis_manager.cpp:151-171 | the context last pooled if it answers, with nothing made or freed; otherwise it is freed and a new one made, none exactly if that fails |
| RedisPool.ReturnThenTake | Services/utils/redis_manager.cpp:151-189 | a returned context is freed exactly if the pool is full; otherwise the next taker that finds it alive gets it |
| RedisPool.DisconnectEffect | Services/utils/redis_manager.cpp:97-109 | exactly what is pooled is freed, and the manager no longer counts as initialized |
| RedisPool.GetKeeps | Services/utils/redis_manager.cpp:151-171 | taking a context keeps every context in exactly one place and hands out one nobody else has |
| RedisPool.ReturnKeeps | Services/utils/redis_manager.cpp:177-189 | returning a handed-out context keeps that and never fills the pool beyond its size |
| RedisPool.ContextsAreConserved | Services/utils/redis_manager.cpp:39-189 | in every run each created context is in exactly one of pool, handed out and freed; none is pooled or freed twice |
| RedisPool.InitializeBoundedIff | Services/utils/redis_manager.cpp:39-68 | a first initialization leaves the pool within its size if and only if it was empty before |
| RedisPool.UpIsInitialized | Services/utils/redis_manager.cpp:39-109 | in every run the flag says exactly that some initialization returned success and no disconnect came since |
| RedisPool.PoolStaysBounded | Services/utils/redis_manager.cpp:39-189 | in every run, however often it is initialized, the pool never outgrows its size if each initialization without a good one before it starts from an empty pool |
| RedisPool.LateReturnOverfills | Services/utils/redis_manager.cpp:177-189 | a run in which a context returned after a disconnect makes the next pool too large |
| WriteQueue.StepKeepsInv | Services/GateServer/websocket_session.cpp:226-279 | every send and completion keeps: one write at most, the flag up exactly then or after a failure, and enqueued = delivered + in flight + lost + queued |
| WriteQueue.HistoryIsKept | Services/GateServer/websocket_session.cpp:226-279 | in every run what was enqueued are the messages of the sends, and the delivered and the lost number the successful and the failed completions |
| WriteQueue.MessagesAreConserved | Services/GateServer/websocket_session.cpp:226-279 | over every interleaving no message of the sends is dropped, doubled or reordered; the delivered are a prefix of them, failure or not, and all of them once no write is in flight and none has failed |
| WriteQueue.QueueDrains | Services/GateServer/websocket_session.cpp:263-278 | if no write fails, completing the outstanding ones delivers every message of the sends and stops writing |
| WriteQueue.FailureIsFinal | Services/GateServer/websocket_session.cpp:266-267 | after a failed write later messages pile up and none is written |
| Heartbeat.TimeoutIff | Services/GateServer/websocket_session.cpp:319-349 | a tick times the session out if and only if nothing was read in the 90 seconds before it |
| Heartbeat.HeartbeatsAreSent | Services/GateServer/websocket_session.cpp:341-356 | every timer firing since the last read has sent a heartbeat, unless it timed the session out |
| Heartbeat.SilenceIsBounded | Services/GateServer/websocket_session.cpp:319-358 | a session not timed out has had at most 3 heartbeats since it was heard, and has been silent for less than 120 seconds and the timer's lateness once it ticked, something was read, or the handshake took less than 90 seconds |
| Heartbeat.TimeoutIsPrompt | Services/GateServer/websocket_session.h:23 | under that condition the timeout of a silent session falls in [90 s, 120 s + lateness) after it was last heard |
| Heartbeat.UnsettledTimeoutIsLate | Services/GateServer/websocket_session.cpp:325-349 | without it a timely run can time the session out 120 s + lateness or more after it was last heard |
| WebsocketSession.WebsocketSession.constructor | Services/GateServer/websocket_session.cpp:12-37 | an idle session whose client is acquired from an initialized manager, or its own temporary one |
| WebsocketSession.WebsocketSession.SendMessage | Services/GateServer/websocket_session.cpp:226-238 | the message is queued behind a write in progress; otherwise a write is started at once, and the flag is up either way |
| WebsocketSession.WebsocketSession.StartWrite | Services/GateServer/websocket_session.cpp:240-262 | the first message goes in flight, or writing stops |
| WebsocketSession.WebsocketSession.OnWritten | Services/GateServer/websocket_session.cpp:263-278 | the queue's completion step; a failure also gives the client back |
| WebsocketSession.WebsocketSession.Fail | Services/GateServer/websocket_session.cpp:281-317 | the client goes back to the manager exactly if it came from it and is still held |
| WebsocketSession.WebsocketSession.OnTimer | Services/GateServer/websocket_session.cpp:335-357 | the heartbeat machine's tick: a heartbeat is sent and the timer re-armed, or the session fails and no timer is left |

## Left out

- Sockets, listeners, gRPC, hiredis and the MySQL client are foreign code; only their success or failure appears, as parameters.
- SHA-256, `RAND_bytes`, the UUID branch of the session-id generator and the quality of any random number.
- JSON parsing and building, HTTP headers and routing, logging, the main programs, Docker files, and the Qt client.
- The prepared-statement code of the database manager: repeated error branches with no deeper property.
- WebSocketManager, which keeps one entry per user id and claims no agreement with the connection table.
- Redis strings, publish and subscribe, and the services' remaining one-line queries.
- WRONGTYPE replies of Redis: the keys of statuses and friends lists are never used with the other type.
- The values of session tokens and update times in the cache beyond being written, and the offline update a failing session sends by gRPC.
- Races between concurrent cache writers, and the friends list cached before an AddFriend: the source promises no freshness there.
- Deleting users or friendships during a run; no service does it.
- The order in which `std::map` and `std::unordered_map` are iterated: results that depend on it are stated for any order.
- The lifetime of the buffer handed to an asynchronous write.
- `setStatusClient` and `handle_heartbeat` of the session, which have no callers.
- A database write that reports failure is taken to have left no row.
- Sessions destroyed without an error callback: only `fail` returns a client, so such a session keeps its client for good.
- The endless loop and the sleep of the health-checking thread; one pass is modelled.
- FormData.GenerateSessionId: the 32 bytes are an input, because where they come from is outside the model.
- LoadBalancer.LoadBalancer.GetNextInstanceWeighted: does not model the 32-bit overflow of the total weight, nor a uniform distribution over an empty range when that total is below 1; the draw is any integer.
- DatabaseManager.FailoverTerminates: speaks of constant reachability and of attempts whose handles can be allocated, because an allocation failure marks instances that would have answered (MarksOnlyUnreachableIff); FailuresAreBounded covers attempts that each meet conditions of their own.
- StatusService.StatusService.AddFriend: one call is one step of this class; its interleavings are the subject of module Friendship.
- RedisPool.RedisManager.Initialize: does not model overlapping with a concurrent getConnection, which takes another mutex in the source.
