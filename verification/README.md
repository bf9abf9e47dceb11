# Reply-tree addressing in the demo social network

The demo social network keeps a forest of posts in memory. Each post has
an `Id`, an author `Name`, a `Message`, a `Time` and an ordered list of
`Replies`. A post's `Id` is its position in the forest, written as
comma-separated decimal indices. `"0,1,0"` is the first reply to the second
reply of root 0.

The `/newpost` handler does one of two things:
- It appends a new root post.
- It reads a `ReplyId` of that form and walks the forest by its indices.
  It builds the new reply's `Id` from the indices and the parent's current
  number of replies. Then it appends the reply as the parent's last child.

This project models that handler in Dafny, together with the post type and
the forest. The forest is a value (`seq<Post>`), not a global. The handler
is a pure function from the old forest, the form fields and the request
time to the new forest and an outcome. The time is never inspected.

Modules:
- `Decimal` models `strconv.Itoa` and `strconv.Atoi` on unbounded
  integers: an optional sign, then one or more ASCII digits.
- `PathCodec` holds `strings.Split` / join on `,`, `Parse` and `Format` for
  positions, and the two loops of the handler that parse and render them.
- `ReplyTree` holds `Post`, resolution of a position, appending at a
  position, the numbering invariant and append-only growth.
- `NewPost` holds the handler (`Handle`) and sequences of requests (`Serve`).
- `Seed` holds the example thread `main` starts with, and the requests that
  build it.

Where the source faults, and how the model treats edge cases:
- The source does no bounds check when it walks the forest (main.go:73 and
  main.go:79). A negative or out-of-range index panics there, before the
  only mutation (main.go:104). The Go HTTP server recovers a panicking
  handler, so the forest stays unchanged. The model returns the outcome
  `NoSuchPost` with the forest unchanged. This is an error result, not a
  precondition: `Handle` accepts every input.
- `Atoi` accepts `"-1"`, so a negative segment parses and only the walk
  rejects it. In the model, `Parse` accepts negative indices and `Resolve`
  rejects them.
- An empty `Name` or `Post` skips the root branch; it is not an error. The
  handler then tries the reply branch, and otherwise does nothing. The model
  reports `Ignored` in that last case.
- `Atoi` accepts `"+0"` and `"007"`. So `ReplyId` texts that differ can name
  the same parent. The new `Id` is always re-rendered from the parsed
  integers, so it is canonical.

## Model

| member | source | states |
|---|---|---|
| Decimal.Itoa | main.go:46 | the rendering is integer text that `Atoi` accepts, starts with `-` exactly for negative numbers, has no leading zero (so `0,1` and never `00,+1`), is canonical, and holds no comma |
| Decimal.Atoi | main.go:65 | a text converts exactly when it is an optional sign followed by at least one ASCII digit; unsigned and `+` texts give non-negative values, `-` texts non-positive ones |
| Decimal.AtoiUnsigned | main.go:65 | an unsigned digit text converts to its decimal value, leading zeros included |
| Decimal.AtoiSigned | main.go:65 | a `+` or `-` followed by digits converts to the digits' value, negated for `-`; with `AtoiUnsigned` this fixes the value of every text that converts |
| Decimal.AtoiPlusSign | main.go:65 | `"+7"` reads as `"7"` does |
| Decimal.AtoiLeadingZero | main.go:65 | `"07"` reads as `"7"` does, so `"+0"`, `"00"` and `"0"` name the same index |
| Decimal.AtoiMinusSign | main.go:65 | `"-7"` reads as the negation of `"7"` |
| Decimal.ItoaAtoi | main.go:46 | every canonical text (no `+`, no leading zero, no `-0`) is the rendering of the number it reads as, so canonical texts and integers correspond one to one |
| Decimal.AtoiItoa | main.go:60-70 | `Atoi` reads back every number `Itoa` renders |
| Decimal.ItoaInjective | main.go:46 | distinct numbers get distinct renderings, so distinct roots get distinct `Id`s |
| PathCodec.Split | main.go:60 | splitting on `,` gives at least one segment, no segment holds a comma, and joining the segments gives the text back |
| PathCodec.SplitJoin | main.go:60 | splitting undoes joining for comma-free segments |
| PathCodec.SplitConcat | main.go:60 | splitting at one comma splits the two sides independently |
| PathCodec.ParseSegments | main.go:64-70 | conversion succeeds exactly when every segment is an integer text; each index is the value of its own segment |
| PathCodec.Parse | main.go:60-71 | a successful parse has at least one index |
| PathCodec.ParseConcat | main.go:60-71 | text joined at a comma parses to the concatenation of both sides' indices; if either side fails, the whole fails |
| PathCodec.ParseRejectsEmptySegment | main.go:60-71 | the empty text, a doubled comma, a trailing comma and a leading comma are all rejected |
| PathCodec.ParseFormat | main.go:83-92 | round trip: parsing the text of any non-empty position gives that position back |
| PathCodec.FormatSnoc | main.go:87-92 | the text of a position one index longer is the old text, a comma, and the new index |
| PathCodec.ConvertIds | main.go:60-71 | the split-and-convert loop that stops at the first bad segment succeeds exactly when `Parse` does, with the same indices |
| PathCodec.RenderChildId | main.go:83-92 | the render loop produces exactly the text of the parent indices followed by the child index |
| ReplyTree.Resolve | main.go:73-80 | a position resolves only if it is non-empty, every index is non-negative and the first is a root index; a one-index position gives that root |
| ReplyTree.ResolveAppend | main.go:75-80 | resolving a longer position resolves its first part and then the rest below that node; a failed first part fails the whole |
| ReplyTree.FindParent | main.go:73-80 | the walk that moves `pAddr` down one index at a time, with range checks where the source faults, finds exactly the node `Resolve` gives |
| ReplyTree.AppendAt | main.go:104 | the forest keeps its number of roots, and the node at the path becomes itself with the child added as its last reply |
| ReplyTree.AppendAtKeepsOthers | main.go:104 | every existing node that is not on the path to the parent resolves to the same post afterwards |
| ReplyTree.AppendAtOnlyNew | main.go:104 | every position that newly resolves lies at or below the parent's path plus its old reply count |
| ReplyTree.AppendAtGrows | main.go:104 | appending only grows the forest: no existing post changes a field, loses a reply or moves |
| ReplyTree.GrowsKeepsResolved | main.go:104 | in a grown forest every existing position still resolves, to the same post with possibly more replies |
| ReplyTree.FormatSingle | main.go:46 | the text of a one-index position is the decimal index, which is the `Id` a new root gets |
| ReplyTree.NumberedAsIffLocal | main.go:130-158 | for a post whose own `Id` matches its position, the positional invariant holds exactly when each reply's `Id` is its parent's `Id`, a comma and its index |
| ReplyTree.WellNumberedIffRootsNumbered | main.go:123-158 | "every `Id` is the text of its position" is the same as "roots are numbered by index, and each reply extends its parent's `Id` by its index" |
| ReplyTree.ResolvedNumbered | main.go:73-92 | in a numbered forest, the node a position resolves to is numbered as that position |
| ReplyTree.IdAddressesPost | main.go:39-80 | in a numbered forest, a post's `Id` is the text of its position, and parsing it gives back the position that leads to the post |
| ReplyTree.AppendAtPreservesNumbering | main.go:83-104 | appending a child numbered as its new position keeps the whole forest numbered |
| ReplyTree.AppendChildPreservesNumbering | main.go:83-104 | appending a reply with no replies of its own, whose `Id` is the text of the parent's position plus the parent's old reply count, keeps a numbered forest numbered |
| ReplyTree.AppendChildFrame | main.go:104 | appending such a reply changes no existing node off the path to the parent, and its position is the only one that newly resolves |
| NewPost.Handle | main.go:43-106 | branch selection: the root branch when `Name` and `Post` are set, the reply branch when `Reply`, `Name` and `ReplyId` are all set, else no change. A root gets `Id` = `Itoa` of the old root count, at that index, with earlier roots kept. A reply's parsed indices plus the parent's old reply count are its position; it is the parent's last reply and its `Id` parses back to that position. A malformed or unresolvable `ReplyId` leaves the forest unchanged |
| NewPost.HandlePreservesNumbering | main.go:43-106 | every request keeps every post's `Id` equal to the text of its position |
| NewPost.HandleGrows | main.go:43-106 | every request only grows the forest |
| NewPost.HandleReplyFrame | main.go:73-104 | a reply changes no existing node off the path to its parent, and the new reply is the only post that appears |
| NewPost.ServePreservesNumbering | main.go:29-106 | any sequence of requests keeps the forest numbered |
| NewPost.ServeKeepsPosts | main.go:29-106 | append only: after any sequence of requests, every existing position holds a post with the same `Id`, author, message and time |
| Seed.SeedWellNumbered | main.go:125-160 | the seeded thread satisfies the numbering invariant |
| Seed.SeedRequestsBuildSeed | main.go:123-163 | posting the seeded messages in order, each reply naming its parent's `Id`, builds exactly the seeded thread; the second reply to the root gets index 1 |
| Seed.ReplyToMissingRoot | main.go:73 | a reply to `"5"` in a one-root forest is refused and changes nothing |
| Seed.TrailingCommaRefused | main.go:60-71 | a reply to `"0,"` is refused as malformed and changes nothing |

## Left out

- HTTP plumbing: form parsing, the redirect, routing, the static file
  server and `ListenAndServe` (main.go:33-39, main.go:108, main.go:166-174).
  The model takes the four form fields as strings and returns the new forest.
- HTML template parsing and rendering (main.go:19, main.go:112-116). This is
  presentation done by a foreign library.
- `time.Now()` (main.go:41). The time is a parameter of type `Timestamp`
  that the model never inspects.
- Concurrent requests writing the global forest. The model serves one
  request at a time.
- Decimal.Atoi: does not model the 64-bit range error of `strconv.Atoi`.
  Integers are unbounded, so a segment too large for Go's `int` parses here.
- ReplyTree.FindParent: the walk returns `None` where the source panics
  (main.go:73, main.go:79). The panic itself, and the Go HTTP server's
  recovery from it, are not modelled.
