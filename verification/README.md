# QuickFeed, verified

A Dafny model of the parts of QuickFeed in which something can go wrong silently: the score pipeline, the
concurrency protocols of the web server, the bookkeeping of groups, enrolments and grades, the synchronisation of
tasks, the choice of reviewers, slip days, the token-refresh list and the `.env` file. Each part is modelled in the
form the code has, loops and mutated objects as methods and classes, state shared by goroutines as a transition
system, and proved against specification functions about which the theorems are stated.

`dafny verify dfyconfig.toml` checks the whole project.

| module | about |
|---|---|
| `Sequences`, `Text`, `Counting` | filtering; lines, cutting and trimming as in Go's `strings`; counting threads |
| `Truncate`, `ScoreResults`, `WeightedSum` | the log truncator, the score extractor and the weighted sum |
| `PushHook`, `Rebuild`, `Stream`, `StreamService` | webhook deliveries, rebuild-all, client streams and their service |
| `GroupModel`, `GroupDatabase`, `GroupSafety`, `GroupResults`, `GroupEffects`, `GroupOutcomes`, `GroupWitnesses` | enrolments, groups, submissions and grades |
| `CourseResults` | the submissions of a course by group and by enrolment |
| `TaskSync`, `TaskStore` | tasks and issues |
| `Reviewers`, `SlipDays`, `TokenManager` | reviewers, slip days, tokens to refresh |
| `EnvFile`, `EnvAgreement` | loading and rewriting the `.env` file |

## How the system is modelled

* **Text** is a sequence of bytes. Trimming knows the UTF-8 encodings of all characters Go counts as space.
* **Protocols.** Every mutex, channel, semaphore, WaitGroup and atomic operation is one step of one thread; there is
  no bound on the number of threads. A run is any finite sequence of enabled steps. Operations that would panic in
  Go (a send on a closed channel, a second close, a negative WaitGroup) set a flag that is proved to stay down.
* **Tables** are maps, and a request with its transaction is one atomic step. A request that fails changes nothing
  (`FailedRequestChangesNothing`); only a recorded result stays when charging slip days for it fails afterwards.
  Answers of the code host, name checks and profile checks are flags chosen by the run. The methods of
  `GroupDatabase.Database` are proved equal to the functions of `GroupModel`, about which the theorems speak.
* **Conditions on requests.** The source checks neither that a request for a new group carries no identifier, nor that
  an update names the course its group has, nor that an enrolment request names no group. Nothing is assumed about
  this. `GradesSafe` and `EnrollSafe` are the exact conditions, to be checked before a request, under which it keeps
  every member graded, and enrolments and groups in agreement; the theorems over runs ask for no more than these.
  `RevivedGroupHasNoGrades` is a run from a new installation with a request that does not meet the first. When an update
  takes a user out of another group is the subject of `UpdateStealsExactlyWhen`, with `WrongCourseSteals` as an example
  from a new installation. Of the database it is assumed that it lists each member of a group once (`Listed`).
* **Map iteration** and the order of query results are arbitrary: every theorem holds for every order.
* **JSON decoding** and **expansion of variables** are parameters. Of expansion it is assumed that it leaves text
  without a dollar sign alone.
* **Floating point** is replaced by real numbers, rounded half up (grades are never negative).
* **Sorting** by the library is a parameter that is only known to order and to keep all elements.
* **Integer widths** matter in `SlipDays` (32-bit unsigned subtraction read as signed, saturating 64-bit durations)
  and `Rebuild` (a 32-bit counter), where they are written out.

## Where code and comments differ

The model follows the code.

* `kit/score/results.go:48-49` speaks of a second non-zero score; any second valid line after a non-zero one, also one
  with score zero, marks the test -1. `kit/score/results.go:58-60` gives conditions for recording a score; the code
  always records it.
* `ci/truncate.go:17` keeps the score lines of the middle segment unless its size exceeds `max`; a middle segment of
  exactly `max` bytes is skipped too.
* `database/gormdb_group.go:193` and the handler agree on a group's members only because `web/groups.go:153-183` checks
  the request first: the database update itself takes users out of other groups (`ReplaceStealsExactlyWhen`).
* `assignments/tasks.go:120` describes closing the issues of deleted tasks; their rows are gone by then
  (`IssuesCompleteExactlyWhen`: no issue is for a task that does not exist). A live task whose title starts with
  `DELETED` is treated as deleted (`DeletedExactlyWhen`).
* Issues are opened for the tasks created in the same synchronisation only. A group repository therefore misses the
  issue of a task in two ways, and never gets it later: it is younger than the task (`OneIssueExactlyWhen`), or a request
  to the code host or the storing of the issues failed when the task was created (`FailureLosesIssuesExactlyWhen`,
  `MissedIssuesStayMissed`).
* `web/stream/stream.go:73-79` sends with the mutex held. If the context is cancelled, or handing a message to the client
  fails, while a `Send` waits at the channel, `Run` leaves, its deferred `Close` waits for the mutex, and neither ever
  returns (`HaltsExactlyWhen`, `AbandonedForever`; `CancelDuringSend` is an example).
* A charge of slip days follows the last submission recorded, not the latest (`NextEventLowersExactlyWhen`). As
  `kit/score/results.go:178-179` stamps each run that is no rebuild with the current time, a charge drops only if two
  runs overtake each other between extracting and recording their results, or the deadline is moved.

## Model

| member | source | states |
|---|---|---|
| Text.JoinOfLines | ci/truncate.go:42-51 | Joining the lines a text was split into gives the text back. |
| Text.LinesOfJoin | ci/truncate.go:42-51 | Splitting joined lines gives the lines back, if none holds a newline. |
| Text.LinesOfConcat | ci/truncate.go:42-51 | Splitting distributes over a newline: the halves are split independently. |
| Text.CutIsUnique | internal/env/load.go:28-28 | Cutting at '=' finds the first one, and only that. |
| Text.ContainsExactlyWhen | kit/score/parse.go:25-25 | A text contains another exactly if the other stands somewhere in it. |
| Text.IsSpaceExactlyWhen | internal/env/load.go:32-32 | The byte sequences trimmed away are exactly the UTF-8 encodings of the characters with the property White_Space. |
| Text.TrimSpaceIsTrimmed | internal/env/load.go:32-32 | Trimming leaves no space at either end and does not touch text without. |
| Text.TrimSpaceAtEnd | internal/env/load.go:45-45 | A space, of any encoding, added at the end makes no difference to the trimmed text. |
| Truncate.FindScoreLines | ci/truncate.go:42-51 | The loop returns the lines that look like scores, in order, joined by newlines. |
| Truncate.ScoreLineExactlyWhen | kit/score/parse.go:69-85 | A line that is not indented looks like a score exactly if it starts with one of the five fields of a score. |
| Truncate.IndentedScoreLine | kit/score/parse.go:69-85 | Space before and after a line makes no difference to that. |
| Truncate.TruncateKeepsScoreLines | ci/truncate.go:19-40 | For every output that is truncated, the subsequence of score lines is unchanged if and only if the middle segment is smaller than `max` or has no score line. |
| Truncate.TruncateKeepsEnds | ci/truncate.go:19-40 | The log starts with the longest run of whole lines within the first `truncate` bytes and ends with the whole lines that hold the last `last` bytes; in between nothing is left but score lines, or a message if there is too much to scan. |
| ScoreResults.ParseAccepts | kit/score/parse.go:24-66 | A line is accepted exactly if it holds the secret and decodes to a score with that secret, a name, positive maximum and weight and a score in range; the secret is cleared. |
| ScoreResults.ParseRejects | kit/score/parse.go:24-66 | A line is rejected for what is wrong with it: each problem reported is true of the line, and a decoder's message that holds the secret is replaced. |
| ScoreResults.ErrorsAndAccepted | kit/score/results.go:157-170 | The errors are for exactly the lines that do not parse, the scores from exactly the lines that do and are for an expected test. |
| ScoreResults.ProblemsHideSecret | kit/score/parse.go:34-38 | No decoder's message among the reported problems holds the secret. |
| ScoreResults.Results.AddScore | kit/score/results.go:44-62 | The object's table becomes the old one with the score added: first occurrences are listed, a repeated score after a non-zero one becomes -1. |
| ScoreResults.Results.ToScoreSlice | kit/score/results.go:34-40 | The recorded scores in the order in which their tests were first seen. |
| ScoreResults.ExtractResults | kit/score/results.go:146-189 | The loop over all output lines depends on nothing but the score lines for scores and errors; the build log is the other non-blank lines. |
| ScoreResults.TruncateThenExtract | ci/truncate.go:19-51 | Extracting from the truncated log gives the same table and the same parse errors in the same order as extracting from the whole output. |
| ScoreResults.TruncateTooMuch | ci/truncate.go:28-36 | The condition for that is exact: otherwise the errors can differ. |
| ScoreResults.EntryOfTable | kit/score/results.go:44-62 | The entry of a test depends only on the scores for that test, in order. |
| ScoreResults.EntryVerdict | kit/score/results.go:44-62 | Starting from zero a test holds its first non-zero score; any later score makes it -1 for good. |
| ScoreResults.ExtractedScore | kit/score/results.go:146-189 | For every output: a test ends at -1 exactly if a valid line for it follows its first non-zero one, else it holds its first non-zero score, else zero. |
| ScoreResults.DistinctIsOrdered | kit/score/results.go:53-56 | The list of names has each name once, ordered by first occurrence. |
| ScoreResults.ExtractedTests | kit/score/results.go:146-189 | The extracted tests are exactly the distinct expected tests in first-occurrence order, whatever the output holds. |
| ScoreResults.FinalTableConsistent | kit/score/results.go:34-62 | Every listed test has a score of its own name, and every score is listed. |
| WeightedSum.InternalSum | kit/score/results.go:95-125 | The loops over parallel lists compute the weighted grade and the total weight of the chosen task's scores. |
| WeightedSum.TaskSum | kit/score/results.go:88-91 | The grade of the scores with this task name as a rounded percentage, within 0 and 100. |
| WeightedSum.Sum | kit/score/results.go:81-83 | The grade of all scores as a rounded percentage, within 0 and 100. |
| WeightedSum.RoundIsNearest | kit/score/results.go:90-90 | The percentage is the nearest whole number, the upper of two. |
| WeightedSum.GradeInRange | kit/score/results.go:95-125 | For any scores with positive maximum and weight, also -1 or above the maximum, the grade is between 0 and 1, and 1 exactly if there are tests and all are at their maximum. |
| WeightedSum.GradeMonotone | kit/score/results.go:95-125 | Raising scores never lowers the grade or the rounded sum. |
| WeightedSum.PointsAreLinear | kit/score/results.go:112-124 | Changing one score within its range changes the points by the weight times the change over the maximum, and no weight. |
| WeightedSum.GradeOfOneTest | kit/score/results.go:95-124 | A single test is graded by its score over its maximum. |
| WeightedSum.PointsSplitByTask | kit/score/results.go:95-120 | Points and weights of all scores are the sums over the tasks, if every score belongs to one. |
| WeightedSum.GradeSplitsByTask | kit/score/results.go:81-120 | Total grade times total weight is the sum over the tasks of task grade times task weight. |
| WeightedSum.ExtractedIsSummable | kit/score/results.go:146-189 | What the extractor returns can be summed: maxima and weights are positive if the expected ones are. |
| PushHook.Duplicates.Duplicate | web/hooks/duplicate_map.go:19-27 | Tells whether the commit is in the map, and puts it there. |
| PushHook.DuplicateIsAtomic | web/hooks/duplicate_map.go:19-27 | In every interleaving, what a delivery finds and leaves in the map between locking and unlocking is what `Duplicate` answers and leaves in one go. |
| PushHook.RemoveIsAtomic | web/hooks/duplicate_map.go:31-35 | Likewise the critical section of `Remove` takes exactly its own commit out of the map. |
| PushHook.StepKeepsMutex | web/hooks/duplicate_map.go:19-35 | Every step keeps mutual exclusion: the mutex is held exactly by the one delivery inside a critical section. |
| PushHook.StepKeepsSemaphore | web/hooks/github.go:83-86 | Every step keeps the semaphore's occupancy equal to the number of deliveries holding a slot, at most five. |
| PushHook.StepKeepsDuplicates | web/hooks/duplicate_map.go:19-35 | Every step keeps the duplicate map equal to the commits of live deliveries, no two of which share a commit. |
| PushHook.RunKeepsInv | web/hooks/github.go:70-89 | In every interleaving of any number of deliveries all of this holds at every point. |
| PushHook.ConcurrencyLimit | web/hooks/github.go:70-89 | At most five `handlePush` calls run at once, occupancy is the number of slot holders, no two live deliveries share a commit. |
| PushHook.Quiescence | web/hooks/github.go:70-89 | When all deliveries are over, map, semaphore and mutex are empty, every delivered commit was handled and no delivery was handled twice. |
| PushHook.StartsExactlyWhen | web/hooks/github.go:83-84 | A waiting delivery can start exactly if fewer than five hold a slot. |
| PushHook.NoDeadlock | web/hooks/github.go:70-89 | As long as a delivery is not over, one of them can go on. |
| PushHook.RunsEnd | web/hooks/github.go:70-89 | A run has at most eleven steps for each delivery, in any order; when no delivery can go on, all are over. |
| Rebuild.StepKeepsSlots | web/rebuild.go:94-106 | Every step keeps the semaphore's occupancy equal to the number of goroutines holding a slot. |
| Rebuild.StepKeepsWaitGroup | web/rebuild.go:86-109 | Every step keeps the WaitGroup counter equal to the goroutines that have not reported. |
| Rebuild.StepKeepsErrors | web/rebuild.go:97-101 | Every step keeps the 32-bit error count equal to the failures counted so far. |
| Rebuild.RunKeepsInv | web/rebuild.go:76-112 | The invariants hold in every interleaving for any number of submissions. |
| Rebuild.Safety | web/rebuild.go:84-109 | At most ten rebuilds run at once, nothing panics, and the semaphore is closed only after every goroutine has released it and finished. |
| Rebuild.OnReturn | web/rebuild.go:84-111 | On return every submission was rebuilt exactly once and the error count is the number that failed, modulo 32 bits. |
| Rebuild.StartsExactlyWhen | web/rebuild.go:84-96 | A waiting goroutine can start exactly if fewer than ten hold a slot. |
| Rebuild.NoDeadlock | web/rebuild.go:84-109 | Until it returns, some step is possible. |
| Rebuild.RunsEnd | web/rebuild.go:84-111 | It returns after at most six steps for each submission and three more, in any order. |
| Stream.StepKeepsMutex | web/stream/stream.go:44-79 | Every step keeps the mutex with the one `Send` or `Close` inside it. |
| Stream.StepKeepsChannel | web/stream/stream.go:44-51 | Every step keeps flag and channel in step: whenever the mutex is free the flag says whether the channel is closed. |
| Stream.StepKeepsOrder | web/stream/stream.go:55-79 | Every step keeps the received messages equal to the completed sends, followed by at most the one being handed over. |
| Stream.RunKeepsInv | web/stream/stream.go:44-79 | The invariants hold in every interleaving of any number of `Send` and `Close` calls with `Run`. |
| Stream.Safety | web/stream/stream.go:44-79 | Nothing is sent on the closed channel, it is closed at most once, and the received and delivered messages are the completed sends in order without repeats. |
| Stream.ClosedStaysSilent | web/stream/stream.go:44-79 | Once the channel is closed it stays closed and nothing more is received. |
| Stream.SendDelivers | web/stream/stream.go:73-79 | A `Send` that finds the stream open hands its message over: when it returns, `Run` has received it, right after those of the calls completed before. |
| Stream.SendAfterCloseAddsNothing | web/stream/stream.go:73-79 | Once the flag is set, no `Send` adds anything. |
| Stream.CloseCloses | web/stream/stream.go:44-51 | When a `Close` has returned, flag and channel are closed. |
| Stream.RunClosesBehindIt | web/stream/stream.go:55-56 | When `Run` has left and all calls have returned, the stream is closed. |
| Stream.RunGoesOnExactlyWhen | web/stream/stream.go:57-69 | A message handed over without error is delivered and `Run` goes on; it leaves exactly on an error, a closed channel or a cancelled context. |
| Stream.HaltsExactlyWhen | web/stream/stream.go:44-79 | Nothing can go on by itself if and only if there is nothing to do, or a `Send` waits at the channel and `Run` has left its loop. |
| Stream.RunsEnd | web/stream/stream.go:44-79 | A run has at most six steps for each call; when nothing can go on, every call has returned unless a `Send` has been abandoned. |
| Stream.AbandonedForever | web/stream/stream.go:44-79 | That `Send` never returns then, and no call that is pending or yet to come does. |
| Stream.CancelDuringSend | web/stream/stream.go:55-60 | It happens when the context is cancelled while a `Send` waits; the `Close` that `Run` defers waits for good. |
| StreamService.Service.Remove | web/stream/service.go:82-87 | Closes and unregisters the stream of this identifier; every stream ever added stays registered or closed. |
| StreamService.Service.Add | web/stream/service.go:70-77 | A stream added under an identifier in use closes the one before; no other stream is touched. |
| StreamService.Service.CloseBy | web/stream/service.go:99-103 | Closes exactly the stream of this identifier, if any. |
| StreamService.Service.Close | web/stream/service.go:90-96 | Afterwards nothing is registered and every stream ever added is closed. |
| StreamService.Service.SendTo | web/stream/service.go:48-66 | Every open stream gets the data once for each given identifier that leads to it, or for each of its registrations when none is given; nothing else changes. |
| StreamService.HitOnce | web/stream/service.go:48-66 | A stream registered once is reached once by a broadcast. |
| StreamService.ClientLeaves | web/stream/stream.go:55-56 | A client that leaves closes its stream behind the service; the service's invariant holds. |
| GroupDatabase.SetGradeAll | qf/submission.go:62-66 | The loop sets every grade, keeping users and order. |
| GroupDatabase.SetGradeByUser | qf/submission.go:53-60 | The loop sets the first grade of the user and no other. |
| GroupDatabase.SetGradesIfApproved | qf/submission.go:71-75 | All grades become approved exactly if the assignment approves by itself and the score reaches the limit. |
| GroupDatabase.RebuildGrades | database/gormdb_group.go:208-227 | The member loop yields one grade per member, the existing one where there is one. |
| GroupDatabase.Database.GetGroupUsers | web/groups.go:153-183 | The loop over the users accepts them exactly if there are some, all distinct, known, accepted in the course and in no group but the one named; a refusal is true of the request. |
| GroupDatabase.Database.CreateGroup | database/gormdb_group.go:13-59 | The users of the request become the members and no other group loses one, or nothing changes; the tables are those of the model. |
| GroupDatabase.Database.SyncGroupGrades | database/gormdb_group.go:193-248 | The loop regrades every submission of the group and no other, or reports a missing assignment. |
| GroupDatabase.Database.UpdateGroup | web/groups.go:74-129 | The group is approved and its members are the users of the request, or nothing changes; checked against the course of the request, updated for the course of the group. |
| GroupDatabase.Database.UpdateEnrollment | web/courses.go:14-39 | After a refreshed profile exactly the allowed changes of status are made, keeping the group; a rejection removes the enrolment; nobody else changes, and a failure changes nothing. |
| GroupDatabase.Database.SetGrades | database/gormdb_submission.go:83-112 | The loop makes one grade per owner, approved if the score approves itself. |
| GroupDatabase.Database.RecordResults | ci/record_results.go:16-128 | A test run or a manual review updates the latest submission of the owner or creates one with fresh grades; an error in charging slip days is reported after the result has been stored. |
| GroupDatabase.Database.UpdateSubmission | qf/submission.go:44-60 | A teacher's grade goes to one user, or to all for user 0. |
| GroupSafety.CreateKeepsInvExactlyWhen | database/gormdb_group.go:13-59 | Creating a group keeps every member graded if and only if its identifier is new, or everybody in the request already has a grade in the submissions a former group of this identifier left behind. |
| GroupSafety.EnrollKeepsInvExactlyWhen | database/gormdb_enrollment.go:14-37 | An enrolment keeps every member graded if and only if it names no group, or the user is graded in all submissions of that group. |
| GroupSafety.UpdateKeepsInv | database/gormdb_group.go:62-112 | Updating a group keeps every member of every group graded, whatever the request says. |
| GroupSafety.ChangeStatusKeepsInv | web/courses.go:14-39 | So does every change of status, rejection included. |
| GroupSafety.DeleteGroupKeepsInv | database/gormdb_group.go:120-139 | So does deleting a group. |
| GroupSafety.RecordKeepsSubmissions | ci/record_results.go:16-100 | So does recording a test run or a manual review; it keeps one submission per owner and assignment, with one grade each. |
| GroupSafety.StepKeepsSubmissions | database/gormdb_submission.go:29-112 | Every request keeps submissions in order: one owner, one submission per owner and assignment, nobody graded twice. |
| GroupSafety.StepKeepsInvExactlyWhen | database/gormdb_group.go:13-139 | A request keeps every member graded if and only if it meets `GradesSafe`. |
| GroupSafety.StepKeepsEnrollInvExactlyWhen | database/gormdb_group.go:13-139 | A request keeps enrolments and groups in agreement if and only if it meets `EnrollSafe`: an enrolment names no group, and the users of an update are accepted in the course of the group. |
| GroupSafety.CreateKeepsEnrollments | database/gormdb_group.go:13-59 | Creating a group does, whatever identifier the request carries. |
| GroupSafety.SameCourseIsSafe | web/groups.go:74-183 | An update that names the course of its group meets the condition. |
| GroupSafety.FailedRequestChangesNothing | database/gormdb_group.go:13-139 | A request that fails leaves all tables as they were. |
| GroupSafety.RunKeepsInv | database/gormdb_group.go:13-139 | Over every run of requests that meet `GradesSafe` every member stays graded. |
| GroupSafety.RunKeepsSubmissions | database/gormdb_submission.go:29-112 | Over every run of any requests submissions stay in order. |
| GroupSafety.EmptyTablesOk | database/gormdb_group.go:13-59 | A new installation satisfies all invariants. |
| GroupSafety.MembersAreGraded | database/gormdb_group.go:193-248 | Over every run of requests that meet `GradesSafe` each current member of a group has exactly one grade in every submission of the group. |
| GroupSafety.EnrollmentsAgreeWithGroups | web/groups.go:153-183 | Over every run of requests that meet `EnrollSafe`, with any identifiers for new groups, an enrolment with a group is a student's or teacher's, lies in the group's course, and the group lists the user. |
| GroupResults.CreateNeverSteals | web/groups.go:153-183 | Creating a group, under a new or a chosen identifier, takes nobody out of another group. |
| GroupResults.UpdateStealsExactlyWhen | web/groups.go:74-183 | Updating a group takes a user out of another group exactly if one of its users is in another group of the course the group has. |
| GroupResults.UpdateNeverSteals | web/groups.go:74-183 | So it never does if the request names that course. |
| GroupResults.ReplaceStealsExactlyWhen | database/gormdb_group.go:62-112 | The database update alone takes a user out of another group exactly if one of the given users is in one. |
| GroupResults.ChecksSuffice | database/gormdb_group.go:39-52 | After the checks of the handler the update touches one enrolment per user: the row-count test never fails. |
| GroupResults.UpdateGrades | database/gormdb_group.go:193-248 | Right after an update the members are those of the request, the grades are theirs, kept members keep their status and new ones have none, unless auto-approval fires and all are approved. |
| GroupResults.PassingRunApproves | ci/record_results.go:82-100 | A test run at or above the limit of an auto-approve assignment leaves every owner approved. |
| GroupResults.StepKeepsApproval | qf/submission.go:71-75 | No single request takes an approval away, other than a teacher's grade or leaving the group. |
| GroupResults.ApprovalIsSticky | ci/record_results.go:64-100 | An approved grade stays approved through every later run of any requests, test runs, rebuilds, manual reviews and group updates included, until a teacher sets it or the member leaves. |
| GroupResults.PassedStaysPassed | ci/record_results.go:64-100 | From a passing test run on, everybody who is a member then stays approved at every later point of the run, until graded or gone. |
| GroupWitnesses.RevivedGroupHasNoGrades | database/gormdb_group.go:13-59 | In a run from a new installation a deleted group is revived under its old identifier, and its new member has no grade. |
| GroupWitnesses.WrongCourseSteals | web/groups.go:74-129 | In a run from a new installation an update that names another course than the group's takes a user out of another group. |
| GroupEffects.CreateMakesMembers | database/gormdb_group.go:13-59 | A new group has exactly the requested users as members, an identifier no group had, and waits for approval; submissions and other groups stay. |
| GroupEffects.DeleteReleasesMembers | database/gormdb_group.go:120-139 | Deleting a group releases exactly its members, who keep their status; other enrolments and all submissions stay. |
| GroupEffects.OneSubmissionEach | ci/record_results.go:48-55 | Over every run of any requests an owner has at most one submission for an assignment. |
| GroupEffects.RecordSetsScore | ci/record_results.go:64-100 | Recording gives the owner a submission with the score of the test run, or the score it had for a manual review, and leaves all others alone. |
| GroupEffects.GradeTakesEffect | qf/submission.go:33-66 | A grade set for a user, or for all, is what is read back for them; nobody else's status changes. |
| GroupEffects.EnrollOnce | database/gormdb_enrollment.go:14-37 | Enrolling succeeds at most once for a course and a user, and adds one pending enrolment. |
| GroupEffects.ReviewApprovesAtUpdate | database/gormdb_submission.go:278-303 | A review changes no grade, even if its score reaches the limit of an auto-approve assignment; the next group update then approves all members. |
| GroupEffects.NoRankSkipped | web/courses.go:14-39 | No request makes a teacher of anyone but a student, a student of anyone but a pending user or a teacher, or removes a teacher. |
| GroupEffects.TeachersWereStudents | web/courses.go:28-38 | Over every run whoever is a teacher was one at the start or a student before. |
| GroupEffects.AcceptedWerePending | web/courses.go:28-38 | Over every run whoever is a student or a teacher was so at the start or has been pending before. |
| GroupOutcomes.GroupUsersExactlyWhen | web/groups.go:153-183 | The checks on the users pass if and only if there are some, all distinct, known, students or teachers of the course, and in no group but the one named. |
| GroupOutcomes.RefusalIsTrue | web/groups.go:153-183 | A refusal names something that is wrong with one of the users. |
| GroupOutcomes.CreateSucceedsExactlyWhen | database/gormdb_group.go:13-59 | A request for a new group succeeds if and only if its name is fine, its users pass the checks, its course exists and its identifier is no group's. |
| GroupOutcomes.UpdateSucceedsExactlyWhen | web/groups.go:74-129 | An update succeeds if and only if the group has members, both courses exist, the users pass the checks and are enrolled in the group's course, profiles, name and code host are fine, and the assignments of its submissions exist. |
| GroupOutcomes.PendingGroupCanBeApproved | web/groups.go:74-129 | A group whose members are known users can be approved as it is. |
| GroupOutcomes.DeleteSucceedsExactlyWhen | database/gormdb_group.go:120-139 | Deleting a group succeeds if and only if it exists and has members. |
| GroupOutcomes.EnrollSucceedsExactlyWhen | database/gormdb_enrollment.go:14-37 | Enrolling succeeds if and only if user and course exist, the profile is complete and there is no enrolment yet. |
| GroupOutcomes.StatusChangesExactlyWhen | web/courses.go:14-39 | A change of status succeeds if and only if it is one of the allowed ones, the profile could be refreshed and, for a promotion, the code host plays along; it changes the status and nothing else. |
| GroupOutcomes.RecordSucceedsExactlyWhen | ci/record_results.go:16-128 | A result is stored if and only if its assignment and its one owner exist; charging slip days for it fails if and only if it is no rebuild and somebody to be charged is missing or in another course. |
| GroupOutcomes.RecordGrades | qf/submission.go:71-75 | Recording approves everybody if and only if the assignment approves by itself and the score of the test run reaches the limit; otherwise statuses stay, and new grades have none. |
| GroupOutcomes.GradeSucceedsExactlyWhen | qf/submission.go:33-66 | A teacher's grade goes to an existing submission and nowhere else, and is read back for the user, or for all. |
| CourseResults.Choose | database/gormdb_submissions.go:110-122 | The submissions that satisfy the condition, each as often as it is there, ordered by assignment. |
| CourseResults.NewOrderMap | database/gormdb_submissions.go:130-136 | The loop maps every assignment to its order. |
| CourseResults.OrderMapHolds | database/gormdb_submissions.go:130-136 | An assignment has the order of its last entry, and zero without one. |
| CourseResults.MakeGroupResults | database/gormdb_submissions.go:56-76 | The keys are exactly the groups of the enrolments, each with its own submissions. |
| CourseResults.MakeUserResults | database/gormdb_submissions.go:80-92 | The keys are exactly the enrolments, each with the submissions of its user. |
| CourseResults.MakeAllResults | database/gormdb_submissions.go:96-108 | The keys are exactly the enrolments, each with the submissions of its user and its group. |
| CourseResults.ListedUnderItsGroup | database/gormdb_submissions.go:56-76 | A group submission is listed once under its own group and under no other, however many members the group has. |
| CourseResults.ListedUnderItsUser | database/gormdb_submissions.go:80-92 | For an enrolment exactly the individual submissions of its user are listed, each once. |
| CourseResults.ListedUnderUserOrGroup | database/gormdb_submissions.go:96-108 | Among all results exactly the individual submissions of the user and those of the group are listed, each once. |
| CourseResults.EitherIsBoth | database/gormdb_submissions.go:80-108 | All results of an enrolment are those of its user and those of its group, nothing twice. |
| TaskSync.ByNameOk | assignments/tasks.go:44-47 | The map of an assignment's tasks files every task's name, and files tasks under their own names. |
| TaskSync.RepoIsInput | assignments/tasks.go:41-51 | The map built from freshly parsed tasks meets the synchronisation's requirements. |
| TaskSync.RepoExactlyWhen | assignments/tasks.go:41-51 | The map has exactly the orders of the assignments; under each, exactly the names of the tasks of the last assignment of that order, and for each name the last of its tasks. |
| TaskSync.SyncRowKeepsPass | database/gormdb_tasks.go:45-76 | Every turn of the loop over existing tasks keeps: rows seen agree with the repository, one row per task survives, the map holds what no seen row is for, the report lists exactly the changed and removed rows. |
| TaskSync.DoneIsSynced | database/gormdb_tasks.go:38-96 | When the loops are done and the new tasks stored, the database is synchronised. |
| TaskSync.DoneAgrees | database/gormdb_tasks.go:38-96 | Afterwards the stored tasks of each assignment are the repository's by name, title and body, each once. |
| TaskSync.StoredAreParsed | assignments/tasks.go:63-68 | In terms of the parsed assignments: the stored tasks of an assignment are those of the last one parsed for its order, by name, title and body. |
| TaskSync.DoneSurvives | database/gormdb_tasks.go:45-76 | Surviving tasks keep their identifier, assignment and name; other courses keep everything. |
| TaskSync.DoneCreates | database/gormdb_tasks.go:77-94 | The created tasks are exactly the new rows, for exactly the names that had none. |
| TaskSync.DoneReports | database/gormdb_tasks.go:59-75 | The updated tasks are exactly the changed ones and the removed ones marked deleted, each once. |
| TaskSync.SecondSyncDoesNothing | database/gormdb_tasks.go:33-99 | A second synchronisation with the same repository creates, reports and changes nothing. |
| TaskSync.DeletedExactlyWhen | qf/task.go:13-24 | A reported task counts as deleted exactly if it was removed or its title starts with the marker. |
| TaskStore.TasksFromAssignments | assignments/tasks.go:41-51 | The nested loops build the map of maps of which `RepoExactlyWhen` speaks. |
| TaskStore.Store.SyncExistingTask | database/gormdb_tasks.go:45-75 | One turn of the inner loop: the row is deleted with its issues, or refreshed if it changed, and the map loses its counterpart. |
| TaskStore.Store.SyncExisting | database/gormdb_tasks.go:41-76 | The inner loop, in any order of the rows, extends what holds of the rows seen to all rows of the assignment. |
| TaskStore.Store.CollectNew | database/gormdb_tasks.go:77-81 | The loop over what is left in the map yields each new task once, in any order. |
| TaskStore.Store.SyncAssignments | database/gormdb_tasks.go:40-82 | The outer loop, in any order of the assignments, handles all of them. |
| TaskStore.Store.InsertTasks | database/gormdb_tasks.go:89-94 | The created tasks get the next identifiers and are stored; nothing else changes. |
| TaskStore.Store.SynchronizeAssignmentTasks | database/gormdb_tasks.go:33-99 | The method as a whole: agreement with the repository, survival, what is created and what is reported; the issues left are those of remaining tasks. If a query or a write fails, nothing has changed. |
| TaskStore.Store.OpenIssues | assignments/tasks.go:98-118 | If the code host accepts all requests there is one issue per created task. |
| TaskStore.Store.OpenAllIssues | assignments/tasks.go:79-92 | Over all repositories: one issue for each created task on each group repository, none elsewhere. |
| TaskStore.Store.StoreIssues | database/gormdb_tasks.go:25-30 | The issues are all stored under new identifiers and the others stay, or none is stored. |
| TaskStore.Store.SynchronizeTasksWithIssues | assignments/tasks.go:63-95 | The tasks are synchronised or nothing changes; the new issues are stored only if fetching the repositories, every request and the storing succeed. |
| TaskStore.OneIssueExactlyWhen | assignments/tasks.go:79-92 | After a synchronisation that succeeds a group repository has exactly one issue for a task if and only if the task is new or it had exactly one before. |
| TaskStore.IssuesCompleteExactlyWhen | assignments/tasks.go:63-95 | All group repositories have exactly one issue for every task of the course if and only if they had one for each task that remains; no issue is for a missing task. |
| TaskStore.NoIssueElsewhere | assignments/tasks.go:80-83 | A repository that is no group's gets no issue. |
| TaskStore.FailureLosesIssuesExactlyWhen | assignments/tasks.go:84-94 | When storing issues fails after the tasks were stored, what was complete stays complete if and only if no task was created or there is no group repository. |
| TaskStore.MissedIssuesStayMissed | assignments/tasks.go:79-94 | Tasks created in such a synchronisation have no issue, and the next one creates none for them. |
| Reviewers.GetUsersExcept | qf/group.go:36-45 | The loop returns the members other than the owner, in order. |
| Reviewers.CountMap.GetNextReviewer | assignments/pull_requests.go:63-80 | The loop picks the first user without a count, else the first with the lowest: nobody offered has fewer reviews. Only his count grows; with nobody offered that of user 0. |
| Reviewers.CountMap.GetNextTeacherReviewer | assignments/pull_requests.go:83-91 | The choice is made with the course's own counts, from none if it is new. |
| Reviewers.CountMap.GetNextStudentReviewer | assignments/pull_requests.go:94-103 | Whoever is chosen is a member other than the owner; nobody is chosen exactly if there is none. |
| Reviewers.AssignReviewers | assignments/pull_requests.go:30-43 | Reviewers are found exactly if there is a teacher and another member; the counts of this course and this group grow in any case, no others. |
| Reviewers.Fairness | assignments/pull_requests.go:63-80 | Over every run two users offered in every call differ by at most one review, or by what they differed at the start. |
| Reviewers.CountsSumToCalls | assignments/pull_requests.go:63-80 | Over every run the counts of all users grow by exactly the number of calls. |
| Reviewers.EvenlySpread | assignments/pull_requests.go:63-80 | With a fixed list of n users, after k calls each has k/n reviews, rounded up for the first k mod n and down for the rest. |
| Reviewers.RoundRobin | assignments/pull_requests.go:63-80 | With a fixed list call k picks user k mod n. |
| SlipDays.ChargeIsCeiling | qf/enrollment.go:26-30 | The charge is the lateness beyond two hours, in days, rounded up. |
| SlipDays.ChargeMonotone | qf/enrollment.go:26-30 | Being later never costs less. |
| SlipDays.UpsertLookup | qf/enrollment.go:37-50 | Charging an assignment sets its charge and leaves all others. |
| SlipDays.UpsertEntries | qf/enrollment.go:37-50 | An entry is added only if there was none; the others stay in place. |
| SlipDays.UpsertSum | qf/enrollment.go:37-59 | Charging an assignment changes the total by what its charge changes. |
| SlipDays.ChargedExactlyWhen | qf/enrollment.go:21-32 | A submission that reaches the limit, is approved or in time changes nothing; any other charges its assignment the lateness beyond two hours in days, rounded up, and no other. |
| SlipDays.ChargedForTheLast | ci/record_results.go:39-44 | Over every run there is at most one entry per assignment, holding the charge for the last submission that counts. |
| SlipDays.OthersLeaveAlone | ci/record_results.go:39-44 | A rebuild and a submission that is approved, in time, passing or for another assignment leave a charge alone, at any point of a run. |
| SlipDays.ChargeNeverDecreases | qf/enrollment.go:14-34 | With a fixed deadline and submissions in order a charge never decreases. |
| SlipDays.ChargeDropsExactlyWhen | qf/enrollment.go:14-50 | One submission lowers a charge if and only if it is charged for, for this assignment, and its charge is below the one on record. |
| SlipDays.NextEventLowersExactlyWhen | ci/record_results.go:39-44 | At any point of a run the next event lowers a charge if and only if it counts and its charge is below that of the last one that counted. |
| SlipDays.OutOfOrderLowersTheCharge | qf/enrollment.go:14-34 | Two submissions out of order are an example. |
| SlipDays.RemainingExactlyWhen | qf/enrollment.go:64-69 | The signed 32-bit result is the true difference exactly if that fits. |
| SlipDays.SlipDaysRemainingExactlyWhen | qf/enrollment.go:53-79 | What is shown is the true remainder, or zero, exactly if the remainder is below 2^31 or the excess, wrapped, is at most 2^31. |
| SlipDays.RemainingIsRight | qf/enrollment.go:53-79 | Over every run with fewer than some 20,000 assignments what is shown is what was granted less what was charged, or zero. |
| SlipDays.Enrollment.UpdateSlipDays | qf/enrollment.go:14-34 | The enrolment's list after a submission, or an error exactly if enrolment, assignment and submission do not belong together. |
| SlipDays.Enrollment.InternalUpdateSlipDays | qf/enrollment.go:37-50 | The loop replaces the first entry for the assignment or appends one. |
| SlipDays.Enrollment.TotalSlipDays | qf/enrollment.go:53-59 | The loop computes the true sum modulo 2^32. |
| SlipDays.Enrollment.RemainingSlipDays | qf/enrollment.go:64-69 | The wrapped difference read as signed; zero for another course. |
| SlipDays.Enrollment.SetSlipDays | qf/enrollment.go:72-79 | The remaining days, never negative. |
| SlipDays.Enrollment.UpdateTotalApproved | qf/enrollment.go:142-156 | The number of different assignments with an approved submission. |
| SlipDays.Database.UpdateSlipDays | ci/record_results.go:102-128 | Every member of the group is charged and stored, up to the first who does not belong to the course or whose write fails; nobody after him changes, and no other enrolment. |
| TokenManager.StepKeepsAgreement | web/auth/jwt_update.go:10-77 | Every request, failing or not, keeps the list free of duplicates and equal to the set of flagged users. |
| TokenManager.RunKeepsAgreement | web/auth/jwt_update.go:10-97 | So does every run, with any failures of the database and any restarts. |
| TokenManager.RestartRebuildsTheSet | web/auth/jwt_update.go:64-77 | Rebuilding the list at a restart after any run gives the same set. |
| TokenManager.ListFollowsLastWord | web/auth/jwt_update.go:10-52 | Any user, created before or during the run, is on the list exactly if the last request about him that did not fail was to add him. |
| TokenManager.Manager.constructor | web/auth/jwt.go:36-46 | A new manager lists exactly the flagged users. |
| TokenManager.Manager.Add | web/auth/jwt_update.go:43-52 | Flag and list change together, or neither if the write fails; it succeeds exactly if the user is then listed. |
| TokenManager.Manager.Remove | web/auth/jwt_update.go:25-40 | Flag and list change together, or neither if the write fails; it succeeds exactly if the user is then not listed. |
| TokenManager.Manager.UpdateCookie | web/auth/jwt_update.go:10-22 | A new token is handed out exactly if one is due, it can be made, and the user is off the list. |
| TokenManager.Manager.UpdateTokenList | web/auth/jwt_update.go:64-77 | The loop lists the flagged users in the order of the database. |
| TokenManager.Manager.Exists | web/auth/jwt_update.go:90-97 | The search loop finds a user exactly if he is listed. |
| EnvFile.Process.Load | internal/env/load.go:13-42 | The loop over the scanned lines sets the environment line by line; it fails exactly if a line does not fit the scanner's buffer, and stops there. |
| EnvFile.TrimQuotesTakesQuotes | internal/env/load.go:37-37 | All quotes at the ends of a value are taken away, and nothing else. |
| EnvAgreement.FitsExactlyWhen | internal/env/load.go:22-41 | The whole file is read if and only if every line is shorter than 64 KB. |
| EnvFile.RewriteLines | internal/env/save.go:66-85 | The loop writes every line of the trimmed file, assignments anew with trimmed key and old or new value, and marks their keys. |
| EnvFile.AppendNew | internal/env/save.go:87-95 | The loop over the map, in any order, adds a line for exactly the keys not marked. |
| EnvFile.Update | internal/env/save.go:60-97 | The whole file written: the rewritten lines, then each missing key once. |
| EnvAgreement.IgnoredByKey | internal/env/load.go:44-47 | A line with '=' is skipped exactly if its trimmed key starts with '#'. |
| EnvAgreement.LineSetsExactlyWhen | internal/env/load.go:25-38 | A line that assigns a variable without value sets it to the unquoted value, expanded in the environment so far, if the system allows it; every other line does nothing. |
| EnvAgreement.ScannedLinesLoad | internal/env/load.go:22-38 | What is loaded is what the lines mean, up to the first that does not fit; the scanner's treatment of carriage returns and of the last line makes no difference. |
| EnvAgreement.LoadedTrimmed | internal/env/save.go:70-70 | Trimming a file makes no difference to what is loaded. |
| EnvAgreement.EntryOfRewrite | internal/env/save.go:66-85 | A rewritten line means what the line meant, with the new value if there is one. |
| EnvAgreement.UpdateThenLoad | internal/env/save.go:60-97 | Loading the rewritten file into any environment gives each rewritten variable that had no value its new value and leaves all others as if the file had not been rewritten, whatever comments, blank lines, spacing and repeated keys it held. |
| EnvAgreement.UpdateKeepsLines | internal/env/save.go:66-85 | Line by line: comments, blank lines and everything without '=' stay where they are, assignments keep their place and get trimmed key and new or old value. |
| EnvAgreement.RoundTripExactlyWhen | internal/env/load.go:22-38 | A dollar-free value written and loaded comes back exactly if it is a single line without NUL, surrounding space or surrounding quotes, and its line fits. |

## Left out

- `TaskStore.Store.SynchronizeAssignmentTasks`: assignments of a course are assumed to differ in order. `createdTasks` is sorted by identifier while all identifiers are still zero, so its order is taken as arbitrary.
- `ScoreResults.ExtractResults`: expected tests and scores are values; that the extractor overwrites fields of score objects it was given, and that an expected test object could be shared, is not captured. Execution time and build date are left out.
- `WeightedSum.InternalSum`: rounding errors of floating-point arithmetic are not modelled.
- `GroupDatabase.Database.RecordResults`: the slip days themselves are the subject of `SlipDays`; here only whether charging them fails.
- `Stream.Safety`: that a `Send` returns is not claimed, as it is false; `HaltsExactlyWhen` says when.
- `StreamService.Service.SendTo`: the methods of the service are atomic, as they hold its mutex throughout; a `Send` that waits inside is the subject of `Stream`.
- `GroupDatabase.Database.UpdateEnrollment`: the repositories created for a student and the repository records are not modelled; whether the code host succeeds is a flag.
- `GroupDatabase.Database.UpdateGroup`: repositories and teams on the code host and the group's name are not modelled; the name check is a flag.
- `SlipDays.Database.UpdateSlipDays`: the stored list of an enrolment is replaced as a whole, while the source writes its entries one by one; as at most one of them has changed, a write that fails leaves the old or the new list.
- `EnvFile.Process.Load`: errors of the file system in opening, reading and saving the file are not modelled.
- `Reviewers.AssignReviewers`: the request to the code host and the stage of the pull request are not modelled.
- GORM, SQL and SQLite themselves: associations and preloading are replaced by maps and queries over them.
- Lost updates between concurrent request handlers that read and write whole rows: handlers are atomic outside the four protocols.
- Git, the code host's API, Docker, the HTTP server, OAuth, signing of tokens, certificates and metrics.
- Decoding of JSON, regular expressions and parsing of deadlines.
- Updating issues on the code host after a synchronisation, and merging of pull requests (`HandleMergingPR`).
- Parsing of assignments and replacing grading criteria (`UpdateAssignments`): the outcome rests on association semantics of the database library.
- `CourseResults.Choose`: the library's sort is a parameter; the queries that fetch submissions and enrolments are not modelled.
- Access control, validity checks of single requests, and helpers for repository names: one branch each.
- The front end, the command line tools and generated code.
