# Matcher registry of the feed search sample

The `search` package of the sample keeps a process-wide table from a feed-type
tag (such as `"rss"`) to a `Matcher`. Matcher implementations call `Register`
at start-up to add their binding. `Run` fetches the list of feeds, picks a
matcher for each one (the matcher bound to the feed's own tag, or else the one
bound to `"default"`), and launches one goroutine per feed after adding
`len(feeds)` to a wait group.

This project models that sequential core in Dafny (`search.dfy`, module `Search`):

- The table is the `matchers` field of a `Registry` class. Its unnamed constructor
  starts it empty, as `make(map[string]Matcher)` does.
- `Registry.Register` changes the table in place. It is proved against the pure
  function `Insert`. A duplicate tag is fatal in the source (`log.Fatalln`). Here
  it returns `Fail(AlreadyRegistered(tag))` and leaves the table unchanged.
- `Resolve` is the lookup with the `"default"` fallback. Go's nil interface
  value is the `Nil` variant of `Matcher`. `Register` accepts it like any other
  matcher, and a tag bound to `Nil` still counts as bound: it is refused on a
  second registration, and its feeds get `Nil` without falling back to
  `"default"`. A missing `"default"` also yields `Nil`, as Go's map lookup does.
  There is no precondition against these cases, because the source does not
  guard against them.
- `ResolveAll` is the list of jobs that `Run`'s loop launches, in feed order.
  `Registry.Run` is that loop written as a method. It is proved to return
  exactly `ResolveAll`, and a wait-group count equal to the number of jobs.
- `RegisterAll` runs a start-up sequence of `Register` calls and stops at the
  first fatal duplicate. The lemmas about it prove that registration only adds
  bindings.

`Matcher` and `Feed` are plain datatypes. A matcher's behaviour is outside
this core, so only its identity (or nil) is modelled. The result of `RetrieveFeeds` is
an input to `Run`, given as a `Result`. A retrieval failure (`log.Fatal`)
becomes `Aborted`, and no job is launched.

## Model

| member | source | states |
|---|---|---|
| Search.Registry.constructor | searchSample/search/search.go:9 | the registry starts with no bindings |
| Search.Insert | searchSample/search/search.go:60-67 | registration fails exactly when the tag is already bound, with the duplicate-tag error; on success the domain grows by exactly that tag (size + 1), the tag maps to the given matcher, and every earlier binding is unchanged |
| Search.Registry.Register | searchSample/search/search.go:60-67 | a bound tag is refused and the table is left unchanged; an unbound tag succeeds and the new table is the one-binding extension given by `Insert` |
| Search.DuplicateRegistrationRejected | searchSample/search/search.go:61-63 | after a tag has been registered once, registering it again with any matcher is rejected |
| Search.RegisterAll | searchSample/search/search.go:60-67 | a start-up sequence of registrations stops at the first fatal duplicate; when it completes, every earlier tag stays bound and the table has grown by exactly one binding per registration |
| Search.RegisterAllFailsAtFirstClash | searchSample/search/search.go:61-63 | a failing sequence fails at some registration `k` whose predecessors were all fresh and whose tag is already bound or was named earlier, and the fatal error names that tag |
| Search.RegisterAllSucceedsIff | searchSample/search/search.go:60-67 | a sequence of registrations completes without a fatal duplicate exactly when no tag in it is already bound and no tag occurs twice in it |
| Search.RegisterAllGrows | searchSample/search/search.go:60-67 | after a successful sequence of registrations, the bound tags are the old ones plus the registered ones, no old binding is overwritten, and each registered tag maps to its matcher |
| Search.Resolve | searchSample/search/search.go:32-35 | a feed whose tag is bound gets exactly that binding, even a nil one; otherwise it gets the `"default"` binding; the result is nil exactly when the tag is bound to nil, or the tag is unbound and `"default"` is unbound or bound to nil; a non-nil result is always a matcher in the table |
| Search.NilBindingSkipsDefault | searchSample/search/search.go:32-35 | a tag bound to a nil matcher counts as bound: its feeds get nil and never the `"default"` matcher, and registering that tag again is refused |
| Search.InsertThenResolve | searchSample/search/search.go:32-35 | after a successful registration, feeds of that tag resolve to the new matcher, feeds whose tag was already bound resolve as before, and, unless the new tag is `"default"`, feeds of every other tag resolve as before |
| Search.ResolveAll | searchSample/search/search.go:30-42 | exactly one job per feed: same length as the feed list, and job `i` holds feed `i` with the matcher that feed resolves to |
| Search.ResolveAllAppend | searchSample/search/search.go:30-42 | resolving a concatenated feed list gives the concatenation of the resolved parts, so nothing is dropped or reordered |
| Search.ResolveAllTotal | searchSample/search/search.go:33-35 | when `"default"` is bound and no tag is bound to nil, every launched job has a non-nil matcher and one of the given feeds |
| Search.Registry.Run | searchSample/search/search.go:12-42 | a feed-retrieval failure aborts with that error and launches nothing; otherwise the wait-group count equals the number of feeds and the number of jobs, and the jobs are exactly `ResolveAll` of the feeds in order (empty for zero feeds) |

## Left out

- Goroutines, the `sync.WaitGroup` barrier, the unbuffered `results` channel and the watcher goroutine that closes it (search.go:20-23, 38-52). They are about concurrency and happens-before ordering, which a sequential model cannot express. The barrier appears only as `waitCount`, the argument of `waitGroup.Add`.
- `RetrieveFeeds`, `Match` and `Display` are not part of this model. Their bodies are outside the core. The feed list is an input to `Run`, and matching and display are not modelled.
- The search term given to `Run` (search.go:12) and passed to every worker's `Match` call (search.go:39) is not modelled. It matters only to `Match`, so `Registry.Run` and `Job` leave it out.
- `log.Fatal` and `log.Fatalln` end the process. The model returns `Aborted` or `Fail(AlreadyRegistered)` instead. The `log.Println` announcement in `Register` is not modelled.
- The table is a field of an explicit `Registry` object, not the package-level variable `matchers`.
- What a worker does with a nil matcher is not modelled. The panic, if there is one, happens inside `Match`, which is outside this model. The model only records the nil matcher as `Nil` in the job.
