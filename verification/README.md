# StoreAlgorithms routing and order core in Dafny

A Dafny model of the routing engine, warehouse-selection logic and small
state-keeping classes of StoreAlgorithms. StoreAlgorithms is a Java
command-line store that fills customer orders from the warehouse closest to
the customer's city.

The model covers:

- **The delivery network** (`src/dsa/Graph.java`): named cities, each with
  a list of weighted, directed edges. A two-way road is two edges.
- **Dijkstra's algorithm** (`src/dsa/Dijkstra.java`): the point-to-point
  shortest path, the predecessor-chain reconstruction, the single-source
  distance table and the nearest-of-several-cities query.
- **Warehouse selection** (`src/dao/OrderProcessor.java`):
  - the breadth-first hop count;
  - the nearest warehouse (by road distance) and the fastest one (by number
    of roads). In both, the first candidate in list order wins ties;
  - the step of `processOrder` that chooses between them. In both modes it
    charges the Dijkstra road distance.
- **The model classes**:
  - `Warehouse`: an inventory map, where removing the exact stock deletes
    the entry.
  - `Product`: a stock counter.
  - `Route`: endpoint rules and the one-line description.
- **The shell's parser** (`src/engine/CommandParser.java`): the white-space
  tokenizer and the `order <product> from <city>` and
  `show route <city> to <city>` splitters. Java's `trim`, ASCII
  `toLowerCase` and `String.split` with the regular expressions `\s+` and
  `(?i)\s+word\s+` are modelled exactly. Round trips cover product and
  city names of several words, and the fallback to `parse` when the split
  does not give two parts.
- **The order command's `fast` flag** (`src/commands/OrderCommand.java:30`):
  fast delivery is on when a third argument is `fast` in any case.

The modules, in dependency order:

| file | module | contents |
|---|---|---|
| wrappers.dfy | Wrappers | `Option`, `Result` |
| map_sum.dfy | MapSum | sums over map values |
| city_graph.dfy | CityGraph | the graph and its operations |
| walks.dfy | Walks | walks, their length and hop count, the reference minima |
| arg_min.dfy | ArgMin | the first-wins arg-min shared by three selectors |
| dijkstra.dfy | Dijkstra | the three Dijkstra queries |
| bfs.dfy | Bfs | `bfsMinimumHops` |
| warehouse.dfy | Warehouses | `Warehouse` |
| product.dfy | Products | `Product` |
| route.dfy | Routes | `Route` |
| text.dfy | Text | trim, lower case, regular-expression split |
| command_parser.dfy | CommandParser | the parser |
| order_processor.dfy | OrderProcessor | warehouse selection |

The algorithms are proved against independent reference definitions in
`Walks`:

- `MinWalkWeight` is the least total length of any walk.
- `MinHops` is the least number of edges of any walk.
- `Reachable` holds when some walk exists.

Mutating Java methods are pure functions here, returning the new object. A
Java `null` string is `None`, and an exception is a `Failure`.

## Model

| member | source | states |
|---|---|---|
| CityGraph.Empty | src/dsa/Graph.java:13-16 | a new graph has no cities and no edges, and satisfies the representation invariant |
| CityGraph.Neighbors | src/dsa/Graph.java:86-88 | an unknown city has no neighbors; every neighbor of a valid graph is one of its cities |
| CityGraph.AddCity | src/dsa/Graph.java:48-51 | the city set gains the name; no adjacency list changes (an existing one is not replaced); validity and non-negative lengths are kept |
| CityGraph.AddRoute | src/dsa/Graph.java:59-66 | both cities are registered; one edge city1→city2 and one city2→city1 of length `distance` are appended; every other city's list is unchanged; validity is kept |
| CityGraph.AddDirectedRoute | src/dsa/Graph.java:74-79 | both cities are registered, but only the edge fromCity→toCity is appended; every other list is unchanged |
| CityGraph.Clear | src/dsa/Graph.java:154-157 | no cities and no edges remain |
| CityGraph.DirectDistance | src/dsa/Graph.java:131-139 | the weight of the first edge to city2 in city1's list, or -1 when there is none |
| CityGraph.DirectlyConnectedIffEdge | src/dsa/Graph.java:147-149 | with non-negative lengths, `areDirectlyConnected` holds exactly when some edge leads from city1 to city2 |
| CityGraph.RouteCount | src/dsa/Graph.java:119-123 | the route count is the number of adjacency entries over all cities, integer-divided by 2 |
| CityGraph.AddRouteCount | src/dsa/Graph.java:119-123 | each `addRoute` adds two adjacency entries and therefore exactly one route to the count |
| CityGraph.LoadRouteCount | src/dsa/Graph.java:119-123 | a network built from n `addRoute` calls reports n routes |
| CityGraph.LoadValid | src/dsa/Graph.java:59-79 | a network built by `addRoute` keeps the invariant: keys equal the cities, and every edge leads to a city |
| CityGraph.LoadCities | src/dsa/Graph.java:59-61 | loading roads registers exactly the cities they name |
| Walks.AddRouteSymmetric | src/dsa/Graph.java:59-66 | after `addRoute`, every edge still has a partner of the same length in the opposite direction |
| Walks.LoadSymmetric | src/dsa/Graph.java:59-66 | a network built only from two-way roads is symmetric |
| Walks.SymmetricDistance | src/dsa/Graph.java:59-66 | in such a network the shortest distance from a to b equals that from b to a |
| Walks.SelfDistance | src/dsa/Dijkstra.java:78-80 | every city is at distance 0 and 0 hops from itself |
| Walks.Triangle | src/dsa/Dijkstra.java:125-133 | shortest distances obey the triangle inequality, on which relaxation relies |
| Walks.RouteIsConnected | src/dsa/Dijkstra.java:156-173 | consecutive cities of a walk's city list are directly connected |
| ArgMin.FirstMinIndex | src/dao/OrderProcessor.java:143-155 | the scan returns no index exactly when every candidate lacks a value, and otherwise the first index with a strictly smallest value |
| ArgMin.FirstMinUnique | src/dsa/Dijkstra.java:238-243 | the first-wins rule selects at most one index |
| Dijkstra.ExtractMin | src/dsa/Dijkstra.java:98-99 | the polled entry has the least distance in the queue |
| Dijkstra.PolledIsShortest | src/dsa/Dijkstra.java:98-108 | an entry polled for an unvisited city carries that city's final, shortest distance |
| Dijkstra.Settle | src/dsa/Dijkstra.java:82-135 | the main loop settles every reachable city (only the target, when there is one), each with its shortest distance, and leaves a predecessor chain back to the source |
| Dijkstra.ReconstructPath | src/dsa/Dijkstra.java:156-173 | following predecessors from a settled city gives the cities of a walk from the start with the recorded length; an unreached city other than the start gives null |
| Dijkstra.SettledIsShortest | src/dsa/Dijkstra.java:137-143 | the distance recorded for a settled city is its least walk length |
| Dijkstra.FindShortestPath | src/dsa/Dijkstra.java:72-147 | unknown city: null path and -1; same known city: the path `[startCity]` at 0; otherwise not found exactly when no walk exists, or a path from start to end whose consecutive cities are directly connected and whose length is the least over all walks |
| Dijkstra.FindShortestDistances | src/dsa/Dijkstra.java:181-223 | the table maps every graph city and the source; each maps to its least walk length, or to the Integer.MAX_VALUE stand-in when unreachable |
| Dijkstra.FindNearestCity | src/dsa/Dijkstra.java:232-251 | not found when no target has a finite distance; otherwise a shortest path to the first target with the strictly smallest distance |
| Bfs.Visit | src/dao/OrderProcessor.java:209-220 | meeting the destination as a neighbor reports the current hop count plus one, which is the least hop count; otherwise an unseen neighbor is labelled one hop further and queued |
| Bfs.Expand | src/dao/OrderProcessor.java:205-221 | expanding a polled city either reports the least hop count or keeps the search invariant |
| Bfs.BfsMinimumHops | src/dao/OrderProcessor.java:194-225 | 0 from a city to itself; -1 exactly when no walk leads from start to end (an unknown start has no neighbors); otherwise the least number of edges of any walk |
| MapSum.SumValues | src/models/Warehouse.java:139-141 | the stream's sum equals the sum over all map values, whatever the order of iteration |
| Warehouses.Quantity | src/models/Warehouse.java:118-120 | the stored quantity, 0 for an absent product |
| Warehouses.HasProduct | src/models/Warehouse.java:110-112 | holds exactly when the product's quantity is positive |
| Warehouses.HasStock | src/models/Warehouse.java:114-116 | holds exactly when the product is listed with at least the required quantity; an absent product never has stock |
| Warehouses.AddProduct | src/models/Warehouse.java:122-124 | the quantity (0 when absent) grows by the amount and the key is present; no other entry or field changes |
| Warehouses.RemoveProduct | src/models/Warehouse.java:126-137 | succeeds exactly when the stock suffices, else nothing changes; on success the quantity drops by the amount, the key is deleted exactly when that leaves zero, and nothing else changes |
| Warehouses.TotalProducts | src/models/Warehouse.java:139-141 | the sum of all quantities |
| Warehouses.IsAtCapacity | src/models/Warehouse.java:143-145 | holds exactly when the total reaches the capacity |
| Warehouses.AddProductTotal | src/models/Warehouse.java:122-124 | adding stock raises the total by exactly the amount |
| Warehouses.RemoveProductTotal | src/models/Warehouse.java:126-137 | a successful removal lowers the total by exactly the amount |
| Warehouses.AddThenRemove | src/models/Warehouse.java:122-137 | removing what was just added restores the warehouse, unless a listed zero entry gets deleted |
| Warehouses.RemoveThenAdd | src/models/Warehouse.java:122-137 | adding back what a successful removal took restores the warehouse |
| Warehouses.StockKeepsIdentity | src/models/Warehouse.java:153-159 | equality is by id, so stock changes never change which warehouse it is |
| Products.IsInStock | src/models/Product.java:86-88 | holds exactly when the quantity is positive |
| Products.HasStock | src/models/Product.java:90-92 | holds exactly when the quantity reaches the requirement |
| Products.ReduceStock | src/models/Product.java:94-100 | succeeds exactly when the stock suffices, lowering the quantity by the amount; otherwise fails with the available and required figures |
| Products.AddStock | src/models/Product.java:102-106 | a positive amount is added; zero or a negative amount changes nothing; no other field changes |
| Products.AddThenReduce | src/models/Product.java:94-106 | reducing by what was just added restores a product with a non-negative count |
| Products.ReduceThenAdd | src/models/Product.java:94-106 | adding back what a successful reduction took restores the product |
| Products.ReduceKeepsNonNegative | src/models/Product.java:94-100 | a successful reduction keeps a non-negative count non-negative |
| Products.StockKeepsIdentity | src/models/Product.java:114-120 | equality is by id, so stock changes never change which product it is |
| Routes.DefaultRoute | src/models/Route.java:18-20 | the default route is two-way and has no names |
| Routes.BasicRoute | src/models/Route.java:23-28 | the basic constructor sets the endpoints and distance and makes the route two-way |
| Routes.NamedRoute | src/models/Route.java:31-38 | the named constructor also sets the names, and the route is two-way |
| Routes.ConnectsCities | src/models/Route.java:119-126 | a two-way route connects {x, y} equal to {from, to} in either order; a one-way route connects only from its origin to its destination |
| Routes.OtherCity | src/models/Route.java:128-135 | from the origin, the destination; from the destination, the origin only when two-way; otherwise -1 |
| Routes.ConnectsIffOther | src/models/Route.java:119-135 | a route connects x to y exactly when it can be entered at x and its other city from x is y |
| Routes.OtherCityInvolution | src/models/Route.java:128-135 | on a two-way route, taking the other city twice comes back |
| Routes.NatToDecimal | src/models/Route.java:139 | the decimal digits of a natural, without leading zeros |
| Routes.IntToDecimalRoundTrip | src/models/Route.java:139 | the decimal rendering of any int reads back as that int |
| Routes.RouteDescription | src/models/Route.java:137-140 | origin name (or `null`), a two-headed arrow exactly when two-way (a right arrow otherwise), destination name, then the distance and ` km` in parentheses |
| Routes.DescriptionDistance | src/models/Route.java:137-140 | the distance can be read back from the description |
| Text.Lower | src/engine/CommandParser.java:24 | lower-casing maps each ASCII capital to its small letter and keeps every other character |
| Text.LowerIsLowerCase | src/engine/CommandParser.java:24 | the result holds no capital letters |
| Text.LowerShape | src/engine/CommandParser.java:37 | text holding a lower-case prefix and word keeps them in its lower-cased form, so the case-insensitive tests pass |
| Text.Trim | src/engine/CommandParser.java:19 | `trim` leaves no blank character at either end, and is empty exactly when the text is all blank |
| Text.TrimKeeps | src/engine/CommandParser.java:41 | text without blank ends is unchanged by `trim` |
| Text.TrimSurrounded | src/engine/CommandParser.java:23 | `trim` removes exactly the blank characters surrounding text with visible ends |
| Text.TrimIdempotent | src/engine/CommandParser.java:23 | trimming twice is trimming once |
| Text.MatchAt | src/engine/CommandParser.java:38 | a match of `\s+` or `(?i)\s+word\s+` starts at a white-space character and ends after it; for `\s+` one starts exactly at white space |
| Text.FirstMatch | src/engine/CommandParser.java:38 | the leftmost match: none starts earlier, and none at all when the result is empty |
| Text.FirstMatchIs | src/engine/CommandParser.java:38 | with no match before position a and one at a, the leftmost match is the one at a |
| Text.KeywordMatch | src/engine/CommandParser.java:38 | a space, the lower-case word, a space and a visible character form a match that ends before that character |
| Text.NoMatchInWord | src/engine/CommandParser.java:38 | no match starts at a visible character |
| Text.NoMatchWithoutSpace | src/engine/CommandParser.java:38 | text without white space does not split |
| Text.Split | src/engine/CommandParser.java:23 | with no match, the text itself; otherwise the pieces between successive leftmost matches, cut off exactly before the trailing empty ones, so the last part kept is non-empty |
| Text.SpaceTokens | src/engine/CommandParser.java:23 | splitting trimmed text on `\s+` gives non-empty tokens without white space |
| Text.SpaceSplit | src/engine/CommandParser.java:23 | for trimmed text no token is dropped, and every token is non-empty and holds no white space |
| Text.SplitKeepsNonEmpty | src/engine/CommandParser.java:23 | when no piece is empty, `split` drops nothing |
| Text.SplitInterleave | src/engine/CommandParser.java:23 | tokens without white space, separated by any runs of white space, split on `\s+` back into the same tokens |
| Text.KeywordSplit | src/engine/CommandParser.java:38 | two phrases of visible words, neither holding the keyword, on both sides of the keyword typed in any case split on `(?i)\s+word\s+` into exactly those two phrases |
| Text.FirstPart | src/engine/CommandParser.java:40 | the first part of a split is the text before the leftmost match |
| CommandParser.Parse | src/engine/CommandParser.java:18-28 | null or blank input gives the empty command without arguments; otherwise a non-empty, lower-case command without white space, and arguments that are non-empty and hold no white space |
| CommandParser.ParseWords | src/engine/CommandParser.java:18-28 | tokens without white space, separated by any runs of white space and with blank text around them, parse back into the lower-cased first token and the remaining tokens in order |
| CommandParser.Argument | src/engine/CommandParser.java:90-92 | the argument at the index, or `""` past the end |
| CommandParser.HasArguments | src/engine/CommandParser.java:98-100 | holds exactly when the argument count is positive |
| CommandParser.ParsedHasArguments | src/engine/CommandParser.java:90-100 | for a parsed command, having arguments is having a non-empty first argument |
| CommandParser.ParseOrderCommandAsWritten | src/engine/CommandParser.java:35-48 | exactly `parse` when the input does not look like an order or its split does not give two parts; when it gives two, fails exactly when the first part is shorter than 6 characters, and otherwise gives `order` with the first part after its 6th character, trimmed, and the second part, trimmed |
| CommandParser.ParseOrderCommand | src/engine/CommandParser.java:35-48 | exactly `parse` when the input does not look like an order or its split does not give two parts; when it gives two, `order` with two trimmed arguments: the first part after its 6th character, or `""` when it has no more, and the second part |
| CommandParser.ParseRouteCommand | src/engine/CommandParser.java:55-66 | exactly `parse` when the input does not look like a route query or its tail after `show route ` does not split into two parts; when it does, exactly `route` with the two parts, trimmed |
| CommandParser.OrderShape | src/engine/CommandParser.java:37 | `order <product> from <city>` passes the case-insensitive order test |
| CommandParser.OrderSplit | src/engine/CommandParser.java:38 | `order <product> from <city>` splits into `order <product>` and the city |
| CommandParser.OrderRoundTrip | src/engine/CommandParser.java:35-48 | an order whose product and city are each one or more visible words joined by single spaces, none of them `from`, with `order` and `from` in any case, parses into exactly that product and city, by the parser as written and by the corrected one |
| CommandParser.RouteShape | src/engine/CommandParser.java:57 | `show route <city> to <city>` passes the case-insensitive route test |
| CommandParser.RouteRoundTrip | src/engine/CommandParser.java:55-66 | a route query whose two cities are each one or more visible words joined by single spaces, none of them `to`, with `show route` and `to` in any case, parses into exactly those cities |
| CommandParser.AsWrittenAgrees | src/engine/CommandParser.java:35-48 | wherever the parser as written succeeds, the corrected parser gives the same command |
| CommandParser.FailsOnlyWithoutProduct | src/engine/CommandParser.java:40 | the parser as written fails only when the delimiter starts right after `order`, so no product was typed; the corrected parser then reads an empty product |
| CommandParser.OrderWithoutProduct | src/engine/CommandParser.java:40 | `order from <city>`, for any city of visible words, makes the parser as written fail with `substring(6)` on a 5-character string; the corrected one reads an empty product and the city |
| CommandParser.FastSuffixIgnored | src/commands/OrderCommand.java:28-30 | the documented `order <product> from <city> fast` gives the two arguments product and `<city> fast` from both parsers, so `fastDelivery` is never set |
| CommandParser.ReadFastSuffix | src/commands/OrderCommand.java:28-30 | a parsed order whose city ends in white space and the word `fast` gets `fast` as its third argument, which turns fast delivery on, and keeps the trimmed text before it as the city; every other command is unchanged |
| CommandParser.FastOrderRoundTrip | src/commands/HelpCommand.java:44 | `order <product> from <city> fast`, read with the suffix rule, gives the product, the city and `fast`, and delivers fast |
| CommandParser.PlainOrderRoundTrip | src/commands/OrderCommand.java:28-30 | an order whose city does not end in the word `fast` reads the same with the suffix rule and does not deliver fast |
| OrderProcessor.WarehouseDistance | src/dao/OrderProcessor.java:145-147 | the distance taken from `findShortestPath` for one warehouse is its shortest road distance, or none when no path is found or the city name is null |
| OrderProcessor.WarehouseHops | src/dao/OrderProcessor.java:173-175 | the hop count taken from `bfsMinimumHops` for one warehouse is its least number of roads, or none for -1 |
| OrderProcessor.Distances | src/dao/OrderProcessor.java:143-147 | the loop over the candidates collects each one's shortest road distance, in list order |
| OrderProcessor.HopCounts | src/dao/OrderProcessor.java:171-175 | the loop over the candidates collects each one's least hop count, in list order |
| OrderProcessor.FindNearestWarehouse | src/dao/OrderProcessor.java:139-158 | null exactly when no warehouse has a path; otherwise the first warehouse in list order with the strictly smallest shortest distance |
| OrderProcessor.FindFastestWarehouse | src/dao/OrderProcessor.java:167-186 | null exactly when no warehouse is reachable; otherwise the first warehouse in list order with the strictly smallest hop count |
| OrderProcessor.SelectWarehouse | src/dao/OrderProcessor.java:77-112 | picks the nearest or, in fast mode, the fastest warehouse; in both modes the charged distance is the Dijkstra distance to it, never a hop count; fails when no warehouse is selected and, in fast mode only, when the selected one has no road route |
| OrderProcessor.ReachableEnds | src/dsa/Graph.java:86-88 | a city reached from a different city lies in the network, and so does the starting point |
| OrderProcessor.MetricsAgree | src/dao/OrderProcessor.java:81-112 | for a customer in the network, a warehouse has a road distance exactly when it has a hop count |
| OrderProcessor.NoWarehouseInEitherMode | src/dao/OrderProcessor.java:81-103 | for a customer in the network, both modes fail for want of a reachable warehouse on the same candidate lists |
| OrderProcessor.FastRouteFailure | src/dao/OrderProcessor.java:89-94 | the fast-mode "no delivery route" failure happens only for a customer city outside the network with the selected warehouse in that very city |
| OrderProcessor.NearestNoFarther | src/dao/OrderProcessor.java:77-112 | the nearest-mode distance is never larger than the fast-mode distance |

## Left out

- The database layer is not modelled: the DAO classes, `DBConnection`, the product and city lookups in steps 1-3 of `processOrder`, and `createOrder`, `saveOrder`, `getOrderById` and `loadCityGraph`. The candidate warehouses and the network are inputs instead.
- Console code is not modelled: `ShellEngine`, `CommandHandler`, the `commands` package apart from the `fast` flag of `OrderCommand`, `Printer`, `Main`, `Graph.printGraph` and every `toString`.
- `Order`, `City` and `Product.price` are left out. They are setters, getters and `double` arithmetic that no modelled operation inspects.
- Java's 32-bit `int` is unbounded here. `Integer.MAX_VALUE` as "infinite" becomes `Unreachable` or `None`. Overflow of `distance + edgeWeight` and of the inventory total is not modelled.
- Java `HashMap`/`HashSet` iteration order and `PriorityQueue` tie order are not pinned down. `ExtractMin` takes the first least entry, so among equally short paths the model may return a different one than Java. Only validity and optimality are stated.
- Dijkstra.FindShortestPath: requires non-negative road lengths, which the source never checks. With a negative length the result is unconstrained.
- Dijkstra.FindShortestDistances: requires non-negative road lengths, for the same reason.
- Dijkstra.FindNearestCity: requires non-negative road lengths, for the same reason.
- OrderProcessor.SelectWarehouse: requires non-negative road lengths, because it uses `findShortestPath`.
- OrderProcessor.FindNearestWarehouse: requires non-negative road lengths, for the same reason.
- The exception handlers in `findNearestWarehouse` and `findFastestWarehouse` are left out. No exception arises in the model: a warehouse whose city name is null is simply not found.
- `CityGraph.HasCity`, `AllCities`, `CityCount` and `CommandParser.ArgumentCount` are plain accessors with no contract of their own. The getters and setters of the model classes are not modelled either.
- Bfs.BfsMinimumHops: requires the graph invariant (cities equal the adjacency keys, and every edge leads to a city), which the source never checks. Every graph built through `addCity`, `addRoute` and `addDirectedRoute` keeps it (`CityGraph.AddRoute`, `CityGraph.LoadValid`). The Dijkstra queries and the warehouse selectors require it too.
- CommandParser.Argument: a negative index throws `ArrayIndexOutOfBoundsException` in Java; the model returns `None` instead.
- CommandParser.OrderRoundTrip: names whose words are separated by more than one space, or by other white space, are not covered. `ParseWords` covers such separators, but only for `parse`.
- CommandParser.RouteRoundTrip: the same, for route queries.
- CommandParser.ReadFastSuffix: the dispatcher that would apply it (`CommandHandler`) is not modelled, so the corrected fast-order reading is stated as this function applied to `ParseOrderCommand`.
- `ParseOrderCommand` and `ParseRouteCommand` take non-null text. On `null` the Java methods throw a `NullPointerException` before any test.
- Upper and lower case cover ASCII only. White space is the regular-expression class `\s` (space, tab, line feed, vertical tab, form feed, carriage return). Unicode case mapping and locales are not modelled.
- The three `equals` methods are modelled as id comparisons (`SameWarehouse`, `SameProduct`, `SameRoute`); `hashCode` is left out.

## Findings

| source | as written | input that shows it | evidently intended | confidence | as-written member | corrected member |
|---|---|---|---|---|---|---|
| src/engine/CommandParser.java:38-43 | the order splitter keeps everything after the first `\s+from\s+` as the city, and `OrderCommand` only reads `fast` as a third argument | `order Mobile from Karachi fast`, shown as the fast-delivery example in the help text: the arguments are `Mobile` and `Karachi fast`, so `fastDelivery` is false and the order is placed for a city named `Karachi fast` | a trailing `fast` becomes the third argument, and the city is `Karachi` | not executed | CommandParser.FastSuffixIgnored | CommandParser.ReadFastSuffix |
| src/engine/CommandParser.java:40 | the product is `parts[0].substring(6)`, where `parts[0]` is the text before the first `\s+from\s+` match | `order from Lahore`: the match starts at index 5, so `parts[0]` is `order` (5 characters) and `substring(6)` throws `StringIndexOutOfBoundsException`. The shell then prints only a generic error | an empty product name, reported like any unknown product | not executed | CommandParser.OrderWithoutProduct | CommandParser.ParseOrderCommand |

`CommandParser.ParseOrderCommandAsWritten` models the code as written.
`CommandParser.OrderWithoutProduct` proves that it fails on
`order from <city>` for every city of visible words. The corrected
`CommandParser.ParseOrderCommand` reads an empty product there.
`CommandParser.AsWrittenAgrees` and `CommandParser.FailsOnlyWithoutProduct`
prove that the two parsers differ on this input shape alone.

`CommandParser.FastSuffixIgnored` shows that both parsers leave the word
`fast` inside the city. `CommandParser.ReadFastSuffix` moves it into the
third argument. `CommandParser.FastOrderRoundTrip` proves that the
documented fast order then delivers fast, and
`CommandParser.PlainOrderRoundTrip` proves that other orders are unchanged.
