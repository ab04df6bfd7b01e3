# Worker-pool drains, prime pipeline and in-memory stores, in Dafny

This project models the sequential logic of a small collection of Go and C++
programs:

- **Task queue** (`go-task.go`). A `TaskQueue` is a FIFO of `Task{ID, Name}`.
  `AddTask` appends at the tail. `GetTask` removes the head, or returns nil on
  an empty queue. A `worker` loops until `GetTask` returns nil. The class
  `Tasks.TaskQueue` holds the slice as a `seq<Task>`. nil is `None`.
  `Tasks.Worker` is the drain loop, and its out-parameter is the sequence of
  tasks passed to `processTask`. A pure step semantics (`TakeHead`, `Run`)
  states FIFO order over any sequence of adds and takes. `main`'s setup loop
  (tasks 1..10 named `Task-i`) is modelled with a decimal rendering of `%d`.
- **Prime / sort / sum pipeline** (`go-primes.go`, `opt-go-primes.go`). The
  two files have the same text for `getPrimes`, `bubbleSort` and
  `sumOfSquares`. The model has one copy of each, and the table rows cite both
  files.
  - `getPrimes` is a nested trial-division loop (`Primes.GetPrimes`).
  - `checkPrime` is the per-number flag loop. Its float square-root bound
    becomes `i * i <= num` (`Primes.CheckPrime`).
  - `getPrimesConcurrent` launches one goroutine per number and collects the
    primes from a channel. Here the order in which the results arrive is a
    parameter `arrival`: any permutation of `[2, n)`
    (`Primes.GetPrimesConcurrent`).
  - `bubbleSort` sorts an `array<int>` in place (`Sorting.BubbleSort`).
  - `sumOfSquares` is an accumulator loop over a sequence
    (`Squares.SumOfSquares`).
  - The computations in the two `main`s (generate, sort, sum) are
    `PrimePipeline.SequentialPipeline` and `PrimePipeline.ConcurrentPipeline`.
- **Item store** (`002-original.go`). An `ItemStore` is a map from ID to
  `Item{ID, Name, Price}` plus a `nextID` counter. It has create, read, update
  and delete. Its invariant: keys lie in `1 .. nextID-1`, and each item's ID
  equals its key.
- **Recipe service** (`recipebook/src/services/recipeService.go`). A list of
  `Recipe` values. It rejects ID 0 and rejects an ID already stored. Its
  invariant: stored IDs are non-zero and distinct.
- **Item manager** (`cpp-item-mgr.cpp`). A vector of shared pointers to
  immutable `Item` objects. It has `addItem` (push_back) and `findItemById`
  (first match via `std::find_if`, or null). Items are Dafny objects, so
  `FindItemById` returns the very object that was added.

Each lock-protected operation is one atomic step, and the locks themselves
are not modelled. The state-changing operations are class methods with
`modifies` clauses. They state the whole new state in terms of the old state.
Queries are methods without `modifies`, or functions with `reads`.

Observations from the code:
- `CreateRecipe` reports "recipe ID must be greater than 0", but it checks
  only `ID == 0`. A negative ID is accepted. The model follows the code.
- In `opt-go-primes.go`'s `main`, bubble sort runs when `SORT_ALG` is *not*
  `"bubble"`. `PrimePipeline.AnySortAgrees` shows that either sort gives the
  same list, so the output does not depend on this choice.
- `UpdateItem` binds the looked-up `item` but never uses it. The model does
  the existence check and then the replacement.

## Model

| member | source | states |
|---|---|---|
| `Tasks.TakeHead` | go-task.go:28-33 | The take step yields no task exactly when the queue is empty, and then the queue stays empty. Otherwise the head followed by the rest is the old queue. |
| `Tasks.TaskQueue.constructor` | go-task.go:53 | A new queue holds no tasks. |
| `Tasks.TaskQueue.AddTask` | go-task.go:19-23 | `task` is appended at the tail. The length grows by one and the earlier tasks are unchanged. |
| `Tasks.TaskQueue.GetTask` | go-task.go:25-34 | Returns nil exactly when the queue is empty, and the empty queue stays empty. Otherwise returns the head, and the queue becomes `tasks[1:]`. Agrees with `TakeHead`. |
| `Tasks.Worker` | go-task.go:41-50 | The loop terminates with the queue empty. It passes every queued task to processTask exactly once, in enqueue order. |
| `Tasks.RunIsFifo` | go-task.go:19-34 | Over any sequence of AddTask/GetTask calls: the tasks handed out, followed by those left, equal the initial queue followed by the tasks added. Nothing is lost, duplicated or reordered. |
| `Tasks.ServedIsPrefix` | go-task.go:25-34 | The tasks GetTask hands out are a prefix of the enqueue order (FIFO). |
| `Tasks.ParseNatToString` | go-task.go:55 | Reading back the decimal rendering used by `%d` gives the number. |
| `Tasks.TaskNameInjective` | go-task.go:55 | `Task-a` and `Task-b` are equal names iff `a == b`. |
| `Tasks.MainTasksDistinct` | go-task.go:54-56 | The ten tasks main enqueues have pairwise distinct IDs and names. |
| `Tasks.PopulateQueue` | go-task.go:53-56 | After main's setup, the queue holds exactly ten tasks. Task k has ID k+1 and name `Task-(k+1)`, in order. |
| `Tasks.ProcessAll` | go-task.go:52-64 | The three workers of main, run one after another, together process the ten tasks exactly once, in enqueue order. |
| `Primes.PrimesBelowMembers` | go-primes.go:11-26 | The reference list of getPrimes contains a number iff it is a prime in [2, n). |
| `Primes.PrimesBelowIncreasing` | go-primes.go:13-24 | The reference list is strictly increasing, and all its elements are below n. |
| `Primes.GetPrimes` | opt-go-primes.go:13-28 | The nested trial-division loop returns exactly the primes in [2, n), strictly increasing. The result is empty when n <= 2. |
| `Primes.CheckPrime` | opt-go-primes.go:53-66 | The flag loop accepts num iff no i >= 2 with i*i <= num divides num. For num >= 2 this holds iff num is prime. |
| `Primes.CheckPrimeAgrees` | opt-go-primes.go:56-65 | For num >= 2, the square-root-bounded test agrees with the full trial division of getPrimes. |
| `Primes.RangeCount` | opt-go-primes.go:78-81 | The launch loop checks each number of [2, n) exactly once. |
| `Primes.PrimesBelowCount` | go-primes.go:13-24 | Each prime below n occurs exactly once in getPrimes' result, and nothing else occurs. |
| `Primes.PrimesInCount` | opt-go-primes.go:63-65 | The collector receives a number as often as it arrives if it is prime, and never otherwise. |
| `Primes.FilterAnyOrder` | opt-go-primes.go:89-93 | Whatever the arrival order (any permutation of [2, n)), the collected multiset equals that of getPrimes(n). |
| `Primes.GetPrimesConcurrent` | opt-go-primes.go:69-96 | Empty when n < 2. For the given arrival order, returns the survivors of checkPrime in arrival order. As a multiset, and by membership, this is exactly the primes in [2, n). |
| `Sorting.AdjacentSortedIsSorted` | go-primes.go:29-39 | `arr[j] <= arr[j+1]` for all adjacent j is the same as pairwise ascending order. |
| `Sorting.SortedUnique` | go-primes.go:33 | Two ascending sequences with the same elements (as multisets) are equal. So sorting an already sorted slice changes nothing. |
| `Sorting.BubblePass` | go-primes.go:32-36 | One inner pass over `arr[..m]` moves its largest element to position m-1. It permutes only the prefix and keeps every prefix element at most every suffix element. |
| `Sorting.BubbleSort` | opt-go-primes.go:31-41 | The array ends sorted ascending (pairwise and adjacently), as a permutation of its input (same multiset, same length). An already sorted input is left unchanged. |
| `Squares.SumOfSquares` | opt-go-primes.go:44-50 | The accumulator equals the sum of x*x over the elements. It is 0 for an empty slice and never negative. |
| `Squares.SumSquaresNonNegative` | go-primes.go:42-48 | Without wrap-around, a sum of squares is non-negative. |
| `Squares.SumSquaresAppend` | go-primes.go:44-46 | The sum of squares of a concatenation is the sum of the two sums. |
| `Squares.SumSquaresPermutation` | go-primes.go:68 | Reordering the slice (as sorting does) does not change the sum of squares. |
| `PrimePipeline.SequentialPipeline` | go-primes.go:54-68 | getPrimes followed by bubbleSort yields exactly getPrimes' list (the sort is a no-op). The total is the sum of squares of the primes below n. |
| `PrimePipeline.ConcurrentPipeline` | opt-go-primes.go:103-123 | For any arrival order, getPrimesConcurrent followed by bubbleSort yields exactly getPrimes' list, and the same total. |
| `PrimePipeline.AnySortAgrees` | go-primes.go:58-64 | Any sorted permutation of the primes, such as the one sort.Ints gives, is getPrimes' list, with the same total. |
| `Items.ItemStore.constructor` | 002-original.go:26-31 | A new store has an empty map and `nextID == 1`. |
| `Items.ItemStore.CreateItem` | 002-original.go:33-40 | Ignores the caller's ID and assigns the old nextID. Increments nextID by one. Stores the item under a key that was free, leaves other entries alone, and returns the stored item. Keeps the invariant. |
| `Items.ItemStore.GetItem` | 002-original.go:42-47 | Reports true iff the key is present and then returns its item. Otherwise returns Go's zero Item. Changes nothing. |
| `Items.ItemStore.UpdateItem` | 002-original.go:49-59 | A missing id gives `(Item{}, false)` with the store unchanged. A present id gets the new value with its ID forced to id, and other keys and nextID are untouched. |
| `Items.ItemStore.DeleteItem` | 002-original.go:61-70 | Returns true iff the id was present, after which the key is gone. Otherwise returns false with the store unchanged. nextID is untouched either way. |
| `Recipes.RecipeService.constructor` | recipebook/src/services/recipeService.go:14-18 | A new service holds no recipes. |
| `Recipes.RecipeService.GetAllRecipes` | recipebook/src/services/recipeService.go:20-24 | Returns the stored list, in insertion order. |
| `Recipes.RecipeService.CreateRecipe` | recipebook/src/services/recipeService.go:26-42 | ID 0 gives the zero-ID error. An ID already present gives the duplicate error. In both cases the list is unchanged. Otherwise the recipe is appended and no error is returned. Keeps IDs non-zero and distinct. |
| `Recipes.RecipeService.GetRecipeByID` | recipebook/src/services/recipeService.go:44-54 | Returns the first recipe with the given ID, or "not found" exactly when no recipe has it. Under the invariant, the match is the only recipe with that ID. Changes nothing. |
| `ItemManagement.Item.constructor` | cpp-item-mgr.cpp:8-10 | The constructor stores id and name, and getId/getName return them. |
| `ItemManagement.FindIf` | cpp-item-mgr.cpp:24-25 | `std::find_if` yields the position of the first item with the id, or the end position when there is none. |
| `ItemManagement.ItemManager.constructor` | cpp-item-mgr.cpp:43 | A new manager holds no items. |
| `ItemManagement.ItemManager.AddItem` | cpp-item-mgr.cpp:19-21 | Appends at the end. The size grows by one and existing elements are unchanged. |
| `ItemManagement.ItemManager.FindItemById` | cpp-item-mgr.cpp:23-30 | Returns null iff no item has the id. Otherwise returns the first item in insertion order with that id, the same object that was added. Reads the collection and does not modify it. |
| `ItemManagement.Demo` | cpp-item-mgr.cpp:42-53 | After adding ids 1, 2, 3, looking up 2 finds the item named "Item2". |

## Left out

- Concurrency. The model leaves out goroutines, `sync.WaitGroup`, channels, the closer goroutine of `getPrimesConcurrent`, the worker spawn of `go-task.go` and every mutex. Each operation is one atomic, sequential step. Exactly-once delivery under arbitrary interleavings of the three workers is not modelled. `Tasks.ProcessAll` runs them one after another.
- `Primes.GetPrimesConcurrent`: the scheduling of the goroutines is a parameter (the arrival order), not a model of concurrent execution.
- `processTask`: its printing and one-second sleep are left out. A call to it is recorded in the worker's `processed` sequence.
- `printItems`, all `fmt` output, `time.Now`/`time.Since` and `os.Getenv` are left out. The environment switches of the two prime `main`s become the choice of pipeline method. The `sort.Ints` branch is covered only by `PrimePipeline.AnySortAgrees`, which takes any sorted permutation, because the library sort is not part of this model.
- `Primes.CheckPrime`: the float bound `int(math.Sqrt(float64(num)))` is replaced by `i * i <= num`. The two agree for num >= 0. For negative num, the Go conversion of NaN is not modelled.
- `Squares.SumOfSquares`: does not model Go's 64-bit wrap-around of `int`, because sums here are unbounded integers. For the primes below 123456, the true sum stays far below 2^63.
- `Items.ItemStore.CreateItem`: does not model wrap-around of `nextID` past the largest Go `int`.
- `Item.Price` is a Go `float64`. It is an opaque `real` here, and no arithmetic is done on it.
- The bubble sort works on an `array<int>` in place. That it returns the same slice header (aliasing `primes` in `main`) is not modelled. The pipelines copy the primes into a fresh array.
- `GetAllRecipes` returns the service's own slice, so a caller could change stored recipes through it. The model returns a value copy and does not capture that aliasing. `GetRecipeByID` returns a pointer to a copy, which is a value here.
- The C++ `addItem` accepts a null `shared_ptr`, which `findItemById` would then dereference. The model's items are non-null references. The `shared_ptr` reference counting is not modelled.
- HTTP handlers, JSON encoding, routing, the server `main`s, SQL persistence, and the `todo` and `movie-svc` services are not part of this model.
