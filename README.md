# Go teaching snippets, modelled in Dafny

This project models the parts of the `golang-demo` snippets whose behaviour can be stated precisely:

- **basic.go**: `add`, `swap` and `swap2`.
- **main/8-function.go**: the `adder()` and `fibonacci()` closures. Each closure is a class whose fields are the captured variables, and each call of the closure is a method call.
- **main/12-readers.go**: `MyReader.Read` and `rot13Reader.Read`. Both work in place on an `array<Byte>`.
- **main/14-goroutines.go**: `sum`, `fib`, `_WalkTree`/`WalkTree` and `SameTree`. A channel is modelled by the sequence of operations its single producer performs on it: `Send(v)` for `c <- v` and `Close` for `close(c)`. A receive `v, ok := <-c` reads the next operation. After the close it gives Go's zero value and `false`.
- **main/15-mutex.go**: the `SafeCounter`, `fakeFetcher.Fetch` and the `Crawl` exercise. `Crawl` is modelled twice:
  - `Mutex.CrawlSpec` is a function of the crawl state, made of the claimed URLs and the log of fetches.
  - `Mutex.Crawler.Crawl` is a method over the package-level `crawlUrl` map and the wait-group counter. Its contract says it computes `CrawlSpec`.

Go's `int` is taken to be 64 bits wide. `Numbers.Wrap` applies two's-complement wrap-around to every `int` addition: `add`, `sum += x`, `c.v[key]++`, and both Fibonacci recurrences. The Fibonacci values overflow from F(93) on.

Shared definitions live in `numbers.dfy` (`Int64`, `Wrap`, `Fib`, `Sum`) and `wrappers.dfy` (`Option`, and `Error` for Go's `error`).

Three behaviours of the code differ from what these exercises are usually described as doing. The model follows the code:

- The tree walk sends right subtree, then value, then left subtree. That is reverse in-order, not in-order. `Goroutines.ReverseInOrderIsReversed` relates the two orders. `SameTree`'s result is nonetheless the in-order comparison: two reverse in-order walks are equal exactly when the in-order sequences are (`Goroutines.SameTreeInOrder`).
- A nil tree given to `WalkTree`/`SameTree` is not an empty stream. The code dereferences `t.Right` and panics, so the model requires a non-nil tree.
- "Every URL reachable within the depth is fetched" does not hold. The URL is claimed before the depth test, so a URL first reached at depth 0 is claimed without being fetched. `Mutex.ClaimAtDepthZeroBlocksFetch` gives a three-page example of this.

## Model

| member | source | states |
|---|---|---|
| `Basic.Add` | basic.go:8-10 | the result is a 64-bit int congruent to `a + b` modulo 2^64; it equals `a + b` when that fits; a positive `b` giving a result below `a` means overflow |
| `Basic.Swap` | basic.go:17-19 | the result is the pair `(b, a)` |
| `Basic.Swap2` | basic.go:22-25 | the named results `x, y` are the same pair `swap` returns for the same arguments |
| `Basic.SwapInvolutive` | basic.go:17-19 | swapping the result of a swap gives back the original pair |
| `Numbers.FibStep` | main/8-function.go:26-27 | one `x, y = y, x+y` step on consecutive wrapped Fibonacci numbers gives the next one |
| `Closures.Adder.constructor` | main/8-function.go:12-13 | a new adder has `sum == 0` and has seen no arguments |
| `Closures.Adder.Call` | main/8-function.go:14-17 | `f(x)` adds `x` to the captured `sum`, returns the new `sum`, and after calls with x1..xk that is the wrapped x1+…+xk |
| `Closures.AlternateAdders` | main/8-function.go:45-51 | two adders created separately and called alternately each end with the total of their own arguments only (independent state) |
| `Closures.Fibonacci.constructor` | main/8-function.go:22-24 | a new generator holds `a, b = 0, 1`, which are F(0), F(1) |
| `Closures.Fibonacci.Next` | main/8-function.go:25-29 | each call shifts `(a, b)` to the next consecutive Fibonacci pair and returns `a`, which is Fib(k) on the k-th call |
| `Closures.FibonacciCalls` | main/8-function.go:54-57 | calling one generator `n` times yields Fib(1), …, Fib(n), that is 1, 1, 2, 3, 5, … |
| `Readers.Rot13` | main/12-readers.go:25-34 | the switch on one byte: a lowercase letter stays lowercase, an uppercase letter stays uppercase, and any other byte is unchanged; the exact ranges are in `Rot13Cases` |
| `Readers.Rot13Cases` | main/12-readers.go:25-34 | 'a'..'m' and 'A'..'M' gain 13, 'n'..'z' and 'N'..'Z' lose 13, and any byte that is not an ASCII letter is unchanged |
| `Readers.Rot13IsCaesar` | main/12-readers.go:25-34 | the per-byte switch equals the Caesar shift by 13 within each letter case |
| `Readers.Rot13KeepsCase` | main/12-readers.go:26-33 | a lowercase letter stays lowercase, an uppercase letter stays uppercase, and a non-letter stays a non-letter |
| `Readers.Rot13Involutive` | main/12-readers.go:26-33 | rotating a byte twice returns it |
| `Readers.Rot13All` | main/12-readers.go:24-35 | the buffer transform keeps the length and rotates every position |
| `Readers.Rot13AllInvolutive` | main/12-readers.go:24-35 | rotating a whole buffer twice returns it |
| `Readers.Rot13Read` | main/12-readers.go:22-37 | every byte of `b`, not only the first `length`, is rotated in place; `(length, err)` from the wrapped reader is returned unchanged |
| `Readers.MyRead` | main/12-readers.go:12-15 | returns `(1, nil)`; when `len(b) >= 1`, `b[0] == 'A'`; every other byte is unchanged |
| `Readers.MyReadEmptyBuffer` | main/12-readers.go:12-15 | on an empty buffer `MyReader.Read` reports more bytes than the buffer holds |
| `Readers.MyReadBounded` | main/12-readers.go:12-15 | the corrected read reports `min(1, len(b))` bytes, which is within `0..len(b)`, and writes 'A' to exactly those bytes |
| `Goroutines.Recv` | main/14-goroutines.go:92-93 | `v, ok := <-c` on a channel its producer closes: `ok` means the k-th operation was a send of `v`; otherwise `v` is the zero value and the channel is closed; see `RecvAfterSends` |
| `Goroutines.RecvAfterSends` | main/14-goroutines.go:92-93 | receiving from a channel that got values `s` and was closed yields `(s[k], true)` while `k` is below the length of `s`, and `(0, false)` afterwards |
| `Goroutines.SumSend` | main/14-goroutines.go:17-24 | `sum(s, c)` sends exactly one value, the wrapped sum of `s`, and does not close the channel |
| `Goroutines.FibSend` | main/14-goroutines.go:26-33 | `fib(n, c)` sends F(0), …, F(n−1) (nothing for `n <= 0`) and then closes the channel |
| `Goroutines.WalkOps` | main/14-goroutines.go:68-80 | the channel operations of `_WalkTree(t, ch, isRoot)`: one send per node, plus a close exactly when `isRoot`; see `WalkOpsShape` |
| `Goroutines.WalkTree` | main/14-goroutines.go:82-84 | `WalkTree(t, ch)` sends one value per node and then closes the channel, and closes it nowhere else |
| `Goroutines.WalkOpsShape` | main/14-goroutines.go:68-80 | the walk sends walk(Right) ++ [Value] ++ walk(Left), absent children contributing nothing; only the root call closes the channel, as its last operation |
| `Goroutines.ReverseInOrderIsReversed` | main/14-goroutines.go:68-80 | the walk order is the in-order sequence reversed |
| `Goroutines.WalkLength` | main/14-goroutines.go:68-80 | the walk sends exactly one value per node |
| `Goroutines.LockstepRound` | main/14-goroutines.go:91-99 | one round of receives: a value or `ok` mismatch means the walks differ; both closed together means they are equal; otherwise the agreeing prefix grows by one |
| `Goroutines.SameTree` | main/14-goroutines.go:86-100 | returns true iff the two walks send the same sequence, equivalently iff the in-order sequences are equal; a length mismatch is caught by `ok1 != ok2`; both trees must be non-nil |
| `Goroutines.SameTreeInOrder` | main/14-goroutines.go:86-100 | the reverse in-order walks of two trees are equal iff their in-order sequences are equal |
| `Goroutines.SameTreeReflexive` | main/14-goroutines.go:86-100 | `SameTree(t, t)` is true for every non-nil tree |
| `Goroutines.SameTreeSymmetric` | main/14-goroutines.go:86-100 | `SameTree(t1, t2)` and `SameTree(t2, t1)` give the same result |
| `Goroutines.SameWalkSameSize` | main/14-goroutines.go:94-97 | trees that compare equal have the same number of nodes |
| `Mutex.SafeCounter.constructor` | main/15-mutex.go:131 | a new counter has an empty map |
| `Mutex.SafeCounter.Inc` | main/15-mutex.go:16-22 | `Inc(key)` raises the count of `key` by one (an absent key counts as 0 and is inserted) and leaves all other keys unchanged |
| `Mutex.SafeCounter.Value` | main/15-mutex.go:25-30 | `Value(key)` returns the count of `key`, 0 when absent, and changes nothing |
| `Mutex.IncrementThenRead` | main/15-mutex.go:131-137 | `n` increments of one key on a fresh counter, then a read, give `n` (wrapped to 64 bits) |
| `Mutex.Fetch` | main/15-mutex.go:87-92 | a known URL gives its canned body and links with a nil error; any other URL gives `("", nil, "not found: " + url)` |
| `Mutex.CrawlSpec` | main/15-mutex.go:50-77 | `Crawl` run to completion as a function of the crawl state: the URL ends up claimed, claims and fetches only grow, and nothing is fetched when `depth <= 0` or the URL was already claimed; see `CrawlSound` |
| `Mutex.CrawlLinks` | main/15-mutex.go:72-75 | the `range urls` loop: crawls the links in slice order, after which every link is claimed; see `LinksSound` |
| `Mutex.CrawlSound` | main/15-mutex.go:50-77 | after `Crawl(url, …)` the URL is claimed, even when `depth <= 0`; claims only grow; fetches are only appended, each of a URL unclaimed on entry; no URL is fetched twice |
| `Mutex.LinksSound` | main/15-mutex.go:72-75 | crawling the links in order claims every link and keeps the state consistent |
| `Mutex.CrawlFetchesEachUrlOnce` | main/15-mutex.go:54-64 | a whole crawl from an empty `crawlUrl` fetches each URL at most once |
| `Mutex.CrawlWithoutFetch` | main/15-mutex.go:54-63 | with `depth <= 0` or an already-claimed URL, the only effect is claiming the URL, and nothing is fetched |
| `Mutex.CrawlStopsOnError` | main/15-mutex.go:64-69 | when the fetch fails, the URL is claimed and fetched, and no link is followed |
| `Mutex.GolangCrawl` | main/15-mutex.go:95-126 | the crawl of `main` from "https://golang.org/" at depth 4 fetches each of the four pages once, plus the missing "cmd/" page, and claims exactly those five URLs |
| `Mutex.ClaimAtDepthZeroBlocksFetch` | main/15-mutex.go:54-63 | a link of the start page that is first reached at depth 0 through another page is claimed but never fetched |
| `Mutex.Crawler.constructor` | main/15-mutex.go:47 | `crawlUrl` starts empty and the wait group starts at 0 |
| `Mutex.Crawler.Crawl` | main/15-mutex.go:50-77 | the new `crawlUrl` keys and fetch log are those given by `CrawlSpec` from the old ones, and every stored value is `true`; the wait-group counter drops by exactly one (one `Add(1)` per child, one `Done()` on every return path) |
| `Mutex.CrawlAndWait` | main/15-mutex.go:152-155 | after `Add(1)` and `Crawl`, the counter is zero so `Wait()` returns, and `crawlUrl` maps exactly the claimed URLs, the start URL among them, to `true` |

## Findings

| source | as written | input that shows it | evidently intended | confidence | as-written member | corrected member |
|---|---|---|---|---|---|---|
| main/12-readers.go:12-15 | `MyReader.Read` returns `n = 1` whatever the length of `b` | a buffer `b` of length 0: nothing is copied, but `n = 1 > len(b)` | report the number of bytes `copy` wrote, so that `0 <= n <= len(b)` as the `io.Reader` contract requires | medium, not executed | `Readers.MyReadEmptyBuffer` (over `Readers.MyRead`) | `Readers.MyReadBounded` |

## Left out

- Concurrency and timing are not modelled: goroutines, `select`, `sync.Mutex`, blocking in `sync.WaitGroup.Wait`, `time.Sleep`/`Tick`/`After`, `say`, `fibSelect`, `ClockBoom` and `MyPrint`. Each locked operation is one atomic step, and spawned goroutines run to completion one after another.
- `SafeCounter` in `main`: the ten `go c.Inc("somekey")` calls are ordered before `c.Value` only by a 2 ms sleep, while each `Inc` holds the lock for about 1 ms, so `main` can print any count from 0 to 10. `Mutex.IncrementThenRead` covers only sequential use, where all increments finish before the read.
- Crawler scheduling: only the schedule that runs the children in slice order is modelled. In the concurrent program, the depth at which a URL is first claimed, and so which URLs get fetched, depends on the schedule.
- Channel mechanics are not modelled: blocking, buffer capacity and the interleaving of producers. A channel is the sequence of operations its one producer performs.
- Floating point is not modelled: `Sqrt` (main/3-loop.go), `Point.Abs`/`Scale`/`MyFloat.Abs` (main/9-methods.go), `InterFloat`/`InterPoint.MyAbs` (main/10-interface.go), `add2` (basic.go:13-15), and `compute`/`hypot` (main/8-function.go).
- Foreign libraries are not modelled: `tree.New` (the model has its own `Tree` datatype), `reader.Validate`, `io.Copy`, `os.Stdout`, `strings.NewReader`, `strconv`, `fmt` printing and formatting, and `time.Now`. The wrapped reader of `rot13Reader` is one of these. `Readers.Rot13Read` takes the buffer as that reader left it, together with the `(length, err)` it returned.
- Printing is not modelled: the "found:" line and the error printed by `Crawl`, and all `main` bodies beyond the drivers listed in the table.
- The print-only walkthroughs are not modelled: main/5-pointer.go, main/6-array.go, main/7-map.go, main/2-if.go, if.go, and the interface and type-switch demos of main/10-interface.go.
- The lines that do not compile (basic.go:52, basic.go:59, main/2-if.go:19, if.go:17) are deliberate error examples and are not modelled.
- The `Fetcher` interface is modelled only through its one implementation, `fakeFetcher`, a map from URL to canned result.
- `Basic.Swap` is generic over the element type. In the source, `swap` takes strings and `swap2` takes ints, so it can state that both return the same pair.
- The platform width of Go's `int` is not modelled: 64 bits is assumed throughout.
