# go-gitrepo-cleaner in Dafny

A model of the core of a small GitHub command-line tool (`githubcli`). The tool lists
the repositories of the authenticated user, and deletes one after a confirmation. The model
covers three pieces of it:

- **Paginated listing and filtering** (`internal/api/github.go`, module `Api`).
  `ListRepositories` asks the server for pages of 100 repositories until a page reports no
  next page. An error on any page aborts the whole listing. Without `--all` the requests are
  scoped to `affiliation=owner`, and a second pass keeps only non-nil repositories that are
  neither archived nor forks. The server is a function `Server` from the options of one
  request to its page or error. Termination of the Go `for {}` loop is an explicit assumption,
  `Ends(server, opt, fuel)`: the chain of requests ends within `fuel` requests. The method
  returns the listing and the exchanges it had with the server. It is proved equal to the
  reference functions `Walk` and `Listing`, and the listing's properties are lemmas about
  those functions.
- **The `delete <owner/repo>` command** (`internal/commands/delete.go`, module
  `DeleteCommand`). It parses the argument with `strings.Split` on `/` and requires exactly
  two parts. It then gets a client, checks that the repository exists (a 404 gets its own
  message), asks for confirmation unless `--force` is set, and calls delete. The client,
  the API answers and the typed answer form an `Environment` fixed in advance. A run
  returns its effects in order (output lines, API calls, the read of the answer) and its
  exit status. `Run` is proved equal to the reference function `Expected`, and the
  properties of a run are lemmas about `Expected`.
- **Output of `list`** (`internal/commands/list.go`, module `ListCommand`). `outputJSON`
  projects each repository to a `RepoInfo{name, private, fork, archived}` record. Its
  nil-slice case is the value `Null`. `outputTable` writes two header lines and one row per
  repository. Both loops are methods proved equal to recursive reference functions.
  `listCmd.Run` composes the listing with the chosen output.

Two helper modules support these: `Wrappers` (Option and Result) and `Strings`. `Strings`
holds Go's `strings.Split` with a one-character separator, its inverse `Join` (with the
round trip proved) and the ASCII part of `strings.ToLower`.

Two behaviours of the code are worth stating outright:

- `deleteCmd.Run` only checks that `strings.Split` on `/` gives exactly two parts. Empty
  parts are not rejected, so `/x` and `x/` are accepted (`ParseAccepts`).
- With no repositories, `outputJSON` marshals a nil slice, which `encoding/json` writes as
  `null`, not `[]` (`Projection` is `Null` exactly for the empty listing).

## Model

| member | source | states |
|---|---|---|
| `Api.ListRepositories` | internal/api/github.go:22-59 | The exchanges are exactly the request chain `Walk` of the first query, and the result is `Listing`: the error of a failed page, or all pages' repositories, filtered when `showAll` is false |
| `Api.QueryOptions` | internal/api/github.go:24-31 | No contract of its own: the first request's options, 100 per page and `owner` affiliation without `--all`; `ListingQuery` states it for every request |
| `Api.Listing` | internal/api/github.go:22-59 | Without `--all` every repository of a successful listing survives the filter; `ListingAllOrNothing`, `SinglePage` and `PaginationComplete` state the rest |
| `Api.Kept` | internal/api/github.go:51 | No contract of its own: the filter condition, non-nil, not archived and not a fork; `FilterCounts`, `FilterPositions` and `FilterFixedPoint` state what the filter keeps by it |
| `Api.FetchAll` | internal/api/github.go:34-45 | The page loop sends the chain of requests the server dictates (loop invariant over the rest of the walk) and returns the failing page's error or the concatenation of all pages |
| `Api.FilterOwned` | internal/api/github.go:48-55 | The second loop returns exactly `Filter` of the fetched repositories |
| `Api.WalkIsRequestChain` | internal/api/github.go:35-45 | The walk starts with the first query. Each response is the server's answer to its request. Each later request asks for the page the previous response named. Only the last response is an error or has next page 0 |
| `Api.Walk` | internal/api/github.go:35-45 | Under the termination assumption, the loop makes at least one and at most `fuel` requests |
| `Api.Filter` | internal/api/github.go:48-55 | Every repository the filter returns is non-nil, not archived and not a fork, and it returns no more than it is given |
| `Api.FilterCounts` | internal/api/github.go:50-54 | Every surviving repository is kept as often as it occurs in the input; nothing else is kept |
| `Api.FilterPositions` | internal/api/github.go:50-54 | The output is the input at strictly increasing positions, and those positions are exactly the surviving ones, so it is an order-preserving subsequence that loses nothing that survives |
| `Api.FilterFixedPoint` | internal/api/github.go:50-54 | The filter leaves a listing unchanged exactly when every repository in it survives |
| `Api.FilterIdempotent` | internal/api/github.go:49-54 | Filtering a filtered listing returns it unchanged |
| `Api.RequestsKeepOptions` | internal/api/github.go:41-44 | Moving to the next page changes only the page number: every request keeps the page size and affiliation of the first |
| `Api.ListingQuery` | internal/api/github.go:24-31 | Every request asks for 100 per page, the first asks for no particular page, and the affiliation is `owner` exactly when `showAll` is false |
| `Api.SinglePage` | internal/api/github.go:41-44 | A first page with next page 0 means exactly one request, and the listing is that page, filtered unless `showAll` |
| `Api.ListingAllOrNothing` | internal/api/github.go:36-39 | The listing fails exactly when some page request fails, and then it returns that error and no repositories |
| `Api.PaginationComplete` | internal/api/github.go:34-45 | Against a server holding any number of pages, the `showAll` listing makes one request per page (at least one) and returns the concatenation of all pages in server order |
| `Api.PaginationCompleteAnyFuel` | internal/api/github.go:34-45 | The same request count and concatenated listing hold for any fuel bound within which the stub's chain ends |
| `Api.WalkFuel` | internal/api/github.go:34-45 | The exchanges of the loop do not depend on the fuel bound: any two bounds within which the chain ends give the same walk |
| `Api.ListingFuel` | internal/api/github.go:22-59 | The listing does not depend on the fuel bound |
| `Strings.Split` | internal/commands/delete.go:27 | `strings.Split` gives one piece more than there are separators, no piece holds the separator, and joining the pieces gives the input back |
| `Strings.SplitJoin` | internal/commands/delete.go:27 | Splitting undoes joining when no piece holds the separator |
| `DeleteCommand.ParseTarget` | internal/commands/delete.go:27-33 | The argument is accepted exactly when it holds one slash, and neither part holds a slash; `ParseTargetSplitsAtSlash` adds that the parts rebuild the argument |
| `DeleteCommand.IsConfirmation` | internal/commands/delete.go:60 | No contract of its own: `y` or `yes` after lowercasing; `ConfirmationAnswers` states the exact set of confirming answers |
| `Api.ApiError.IsNotFound` | internal/commands/delete.go:45-46 | No contract of its own: a GitHub error response with status 404; `LookupFailure` states the message it selects |
| `DeleteCommand.Expected` | internal/commands/delete.go:25-76 | No contract of its own: the specification of a run that `Run` meets; the lemmas `DeleteAtMostOnce` to `DeleteOutcome` below state its properties |
| `DeleteCommand.ParseTargetSplitsAtSlash` | internal/commands/delete.go:27-33 | The argument is accepted exactly when it holds one slash; then `owner + "/" + repo` is the argument and neither part holds a slash |
| `DeleteCommand.ParseJoined` | internal/commands/delete.go:27-33 | Any slash-free owner and name are parsed back from `owner/name`, empty ones included |
| `DeleteCommand.ParseAccepts` | internal/commands/delete.go:27-33 | `owner/repo` parses to its two parts, and `/x` and `x/` are accepted with an empty part |
| `DeleteCommand.ParseRejects` | internal/commands/delete.go:27-31 | `ownerrepo`, `""` and `a/b/c` are rejected |
| `DeleteCommand.ConfirmationAnswers` | internal/commands/delete.go:60 | The answer confirms exactly when it is one of the ten spellings of `y` and `yes` in any letter case |
| `DeleteCommand.NotFoundNamesArgument` | internal/commands/delete.go:47 | For an accepted argument, the not-found message built from owner and name quotes the argument as typed |
| `DeleteCommand.Run` | internal/commands/delete.go:25-76 | The effects and exit status of the run equal those of the reference `Expected` |
| `DeleteCommand.DeleteAtMostOnce` | internal/commands/delete.go:43-67 | The run calls delete once, for the parsed repository, exactly when the argument parses, a client is obtained, the lookup succeeds and `--force` is set or the answer confirms; otherwise never |
| `DeleteCommand.DeleteAfterLookup` | internal/commands/delete.go:43-67 | When delete is called, the lookup of the same repository came earlier in the run |
| `DeleteCommand.PromptOnlyWithoutForce` | internal/commands/delete.go:55-59 | The answer is read exactly when the repository was found and `--force` is not set |
| `DeleteCommand.ForceSkipsPrompt` | internal/commands/delete.go:55-67 | With `--force`, the delete call directly follows the successful lookup |
| `DeleteCommand.LookupFailure` | internal/commands/delete.go:43-52 | A failed lookup exits with status 1. A 404 gives `Error: Repository '<arg>' not found`, and any other error gives the `Error checking repository` message |
| `DeleteCommand.DeclinedIsCancelled` | internal/commands/delete.go:55-63 | Without `--force`, any answer other than `y`/`yes` in any case ends the run with `Operation cancelled.`, status 0 and no delete call |
| `DeleteCommand.ConfirmationGate` | internal/commands/delete.go:55-67 | Without `--force`, the answer `n` leads to no delete call and status 0; `y` and `YES` each lead to exactly one delete call |
| `DeleteCommand.ExitStatus` | internal/commands/delete.go:28-71 | The exit status is 1 exactly when the argument is malformed, no client is obtained, the lookup fails, or an attempted delete fails |
| `DeleteCommand.DeleteOutcome` | internal/commands/delete.go:67-75 | An attempted delete ends with the API error message if it fails, and otherwise with the success message naming the argument |
| `ListCommand.Projection` | internal/commands/list.go:78-86 | The projection is the nil slice exactly when there are no repositories. Otherwise it has one record per repository, in order, whose name, private, fork and archived equal the repository's |
| `ListCommand.OutputJson` | internal/commands/list.go:78-86 | The loop builds exactly `Projection` of the repositories, starting from a nil slice |
| `ListCommand.Members` | internal/commands/list.go:71-76 | No contract of its own: the JSON members of a record, keyed by the struct tags; `MembersRoundTrip` states their key order and that they read back as the record |
| `ListCommand.MembersRoundTrip` | internal/commands/list.go:71-76 | A record's JSON object has the keys name, private, fork, archived in that order, and exactly that member list reads back as the record |
| `ListCommand.Table` | internal/commands/list.go:53-63 | The table is the header line and the rule line, followed by exactly one row per repository, in input order |
| `ListCommand.OutputTable` | internal/commands/list.go:53-63 | The loop writes exactly the lines of `Table` |
| `ListCommand.Row` | internal/commands/list.go:58-62 | No contract of its own: the line written for one repository; `RowRoundTrip` states its cells and that the repository reads back from it |
| `ListCommand.RowRoundTrip` | internal/commands/list.go:58-62 | A row is the cells name, private, fork, archived in that order, with `true`/`false` booleans, and the repository reads back from it |
| `ListCommand.HeaderColumns` | internal/commands/list.go:53-54 | The header is four tab-joined cells: `Name`, then `Private`, `Fork` and `Archived`, each after a bar as in the row cells; the rule is four tab-joined cells of dashes under them |
| `ListCommand.Run` | internal/commands/list.go:25-44 | A client failure or a listing error ends with its message on standard error. Otherwise the output is the projection or the table of exactly the listing |
| `ListCommand.JsonScenario` | internal/commands/list.go:33-41 | Given repositories `a` and a private fork `b` without `--all`, the JSON records hold only `a` |

## Left out

- `internal/auth/auth.go` and `internal/auth/client.go` are not part of this model. They load the token from the environment and `.env` files and verify it over the network. A run receives only their failure, as `clientError`.
- `internal/commands/root.go` and `cmd/githubcli/main.go` (cobra wiring, process entry) are not modelled. Flags are explicit parameters, and `os.Exit(1)` is the exit status `Failure` or an `Error` output.
- The go-github HTTP calls are not modelled. `Repositories.List` is the `Server` function. `GetRepository` and `DeleteRepository` (internal/api/github.go:62-71) are fixed outcomes in the `Environment`. The context argument is dropped.
- `Api.ListRepositories`: termination is assumed through `Ends`. A server that names a next page forever makes the Go loop run forever, and the model does not cover it.
- Error texts: `%v` of an error is the error's `message` field. The real text of a go-github error response (method, URL, status) is not modelled.
- `encoding/json` is not modelled: the indented text, string escaping and the marshal error path (which cannot trigger for this record). The model stops at the slice handed to `MarshalIndent` and the order of its members.
- The tab writer's padding and alignment are not modelled. `ListCommand.Table` gives the lines handed to it.
- Colours are not modelled. The red warning in the prompt and the green check mark are plain text.
- `fmt.Scanln` tokenising is not modelled: the answer is the word it read. `strings.ToLower` is modelled on ASCII letters only. This is enough for the `y`/`yes` check, because no other character lowercases to `y`, `e` or `s`.
- Nil fields of a repository (`*repo.Archived` and the others) would panic in Go. The model's `Repository` always has its four fields.
- `ListCommand.Run`: requires `Displayable`, that the shown listing has no nil entry. With `--all` the Go output functions would dereference a nil entry and panic; that panic is not modelled.
- `ListCommand.HeaderColumns`: states the header as joined cells. It does not state that splitting the header gives them back, as `RowRoundTrip` does for rows.
