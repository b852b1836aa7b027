# Transition graph pipeline and analysis client, modelled in Dafny

This project models two parts of the Aethra / Aiklyra conversation-analysis toolkit.

**The transition-graph pipeline (`aethra/graph`).**
- A `GraphProcessor` receives a transition matrix between intent clusters and a dict from cluster index to intent label.
- It builds a weighted directed graph over the labels. Every label is a node. Every `(i, j)` entry of the matrix becomes an edge `label[i] -> label[j]` carrying that weight, zero weights included. When labels repeat, several entries name the same edge, and a later entry overwrites the weight of an earlier one.
- A `ThresholdFilter` returns a copy of a graph without the edges whose weight is strictly below the threshold.
- After filtering, the processor re-derives the label map and the matrix from the filtered graph. It indexes the nodes `0..M-1` in node order and fills a zero `M x M` matrix with the edge weights.

**The analysis client (`aiklyra/client.py`).**
- `AiklyraClient` normalises its base URL and builds its authorisation headers.
- `analyse` validates its arguments in a fixed order and filters every conversation down to the messages of one role (unless the role is `"Any"`).
- It posts to `<base>/conversation-flow-analysis/base_analyse-conversation-flow` and classifies the reply by status code and detail string.

Module layout:
- `Results` (`results.dfy`): the `Option` and `Result` values used in place of `None` and raised exceptions.
- `Graphs` (`graphs.dfy`): the part of a networkx `DiGraph` the pipeline relies on. The graph is a class with nodes in insertion order and an edge map whose weight is optional. `Graph` is its abstract value.
- `Filters` (`threshold_filter.dfy`): the threshold filter. `Threshold` is the specification function, and `ThresholdFilter.Apply` copies the graph and runs the edge-removal loop `RemoveBelowThreshold`, proved against it.
- `Processor` (`processor.dfy`):
  - `Build`, `Extract` and `ZeroBelow` are the specification functions.
  - `GraphProcessor` is the object. Its nested construction loops, its extraction loop and its filtering method are proved against those functions.
- `Client` (`client.dfy`): validation, the role filter (a loop over conversations, proved against `RoleFiltered`), URL building, reply classification and the client class.

Construction, as the code does it:
- **Dense construction.** `_construct_graph` adds an edge for every entry of the matrix, zero weights included.
- **No shape check.** `_construct_graph` never checks the shape of its inputs; it fails the way Python does.
  - A label key with no row in the matrix is an IndexError. Negative keys count from the end, as Python list indexing does.
  - A column without a label is a KeyError.
  - A ragged or non-square matrix whose indices all resolve is accepted.
  - The model's `BuildError` has exactly these two cases (`RowIndexError`, `LabelKeyError`).
- **Validation message.** The test at `tests/test_client.py:166-178` expects a different message for `min_clusters > max_clusters` than the code raises. The model uses the code's message, "Max clusters needs to be greater than Min Clusters".

Two defects in `aethra/graph/processor.py` make `filter_graph` fail as written. The model follows the evidently intended behaviour:
- Line 44 passes three arguments to `apply`, but `ThresholdFilter.apply` takes only the graph. The model calls `Apply(graph)`.
- Lines 48-49 declare `extract_intent_and_matrix_from_graph` as a `@classmethod` with no `cls` parameter, so `graph` would receive the class. The model makes it a static method of `GraphProcessor` that takes the graph.

Representation:
- The label map `intent_by_cluster` is a Python dict, whose insertion order decides node order. It is modelled as its list of `(key, label)` items (`LabelMap`), not as an unordered map; the processor requires its keys to be distinct, as a dict's are.
- Weights are `real`. They are only copied and compared, never computed.
- An edge weight is `Option<real>`; `None` is an edge without a `"weight"` attribute. Extraction reads such an edge as `0.0` (through `.get`), while the filter raises KeyError on it (`Err(MissingWeight)`).
- The HTTP call is a parameter. `Analyse` receives the server's `Reply` and returns the `Request` it would post, or `None` when it fails before posting.

## Model

| member | source | states |
|---|---|---|
| Graphs.AppendNew | aethra/graph/processor.py:23 | the node list after `add_node(n)`: it has exactly the old nodes and `n`, keeps the old nodes as a prefix in order, and stays free of repeats |
| Graphs.DiGraph.constructor | aethra/graph/processor.py:20 | `nx.DiGraph()` is a well-formed graph with no nodes and no edges |
| Graphs.DiGraph.AddNode | aethra/graph/processor.py:23 | `add_node` appends a label not yet present and leaves a present one in its first position; edges unchanged; well-formedness kept |
| Graphs.DiGraph.AddEdge | aethra/graph/processor.py:29 | `add_edge` adds missing endpoints as nodes and sets (or overwrites) the edge's weight; well-formedness kept |
| Graphs.DiGraph.RemoveEdge | aethra/graph/filters/threshold_filter.py:39 | `remove_edge` deletes exactly that edge and reports whether it was present; nodes unchanged |
| Graphs.DiGraph.Copy | aethra/graph/filters/threshold_filter.py:36 | `copy()` is a fresh graph with the same nodes in the same order and the same weighted edges |
| Filters.Threshold | aethra/graph/filters/threshold_filter.py:22-40 | computes the filtered graph: the same nodes and the edges whose weight is not below the threshold, or the KeyError of an edge without a weight (its properties are in the lemmas below) |
| Filters.ThresholdFilter.constructor | aethra/graph/filters/threshold_filter.py:12-20 | the filter stores its threshold |
| Filters.ThresholdFilter.RemoveBelowThreshold | aethra/graph/filters/threshold_filter.py:37-40 | the loop over the edges, in any order, keeps the nodes and reports a missing weight exactly when some edge has none; otherwise the edges become those of `Threshold` of the graph as it was |
| Filters.ThresholdFilter.Apply | aethra/graph/filters/threshold_filter.py:22-40 | the input graph is unchanged; the result is a fresh graph equal to `Threshold` of the input, or the KeyError of an edge without a weight |
| Filters.ThresholdSpec | aethra/graph/filters/threshold_filter.py:36-40 | filtering fails exactly when some edge lacks a weight; otherwise nodes are kept in order, an edge survives iff its weight is not below the threshold, survivors keep their weight, and no edge is added |
| Filters.ThresholdKeepsTie | aethra/graph/filters/threshold_filter.py:38-39 | an edge whose weight equals the threshold is kept |
| Filters.ThresholdWellFormed | aethra/graph/filters/threshold_filter.py:36-40 | filtering a well-formed graph gives a well-formed graph |
| Filters.ThresholdIdempotent | aethra/graph/filters/threshold_filter.py:37-40 | filtering twice at the same threshold equals filtering once |
| Filters.ThresholdMonotone | aethra/graph/filters/threshold_filter.py:38 | for `t1 <= t2`, the edges kept at `t2` are a subset of those kept at `t1` |
| Filters.ThresholdRemovesAll | aethra/graph/filters/threshold_filter.py:37-40 | a threshold above every weight is not an error: all nodes remain and no edge does |
| Processor.Lookup | aethra/graph/processor.py:28 | computes `intent_by_cluster[key]`: the label of the item with that key, or None where Python raises KeyError |
| Processor.Row | aethra/graph/processor.py:26 | computes `transition_matrix[key]` with Python list indexing (negative keys count from the end), or None where Python raises IndexError |
| Processor.RowEdges | aethra/graph/processor.py:27-29 | computes the edge map after the inner loop over one row: one weighted edge per column, in column order, stopping with the KeyError of the first column without a label |
| Processor.AllEdges | aethra/graph/processor.py:25-29 | computes the edge map after the outer loop over the items in order, stopping with the first IndexError or KeyError |
| Processor.AddNodes | aethra/graph/processor.py:22-23 | computes the node list after `add_node` on every label in order |
| Processor.Build | aethra/graph/processor.py:18-30 | computes the graph `_construct_graph` returns, or the error it raises (its properties are in the Build lemmas below) |
| Processor.Extract | aethra/graph/processor.py:49-74 | computes the label map `idx -> node` in node order and the M x M matrix whose cell (i, j) is the weight of the edge between nodes i and j, 0.0 without an edge or a weight |
| Processor.LookupSpec | aethra/graph/processor.py:28 | `intent_by_cluster[key]` fails exactly when no item has that key, and otherwise yields one of the labels |
| Processor.LookupInjective | aethra/graph/processor.py:28 | with distinct keys and labels, two keys that look up the same label are equal |
| Processor.AddNodesSpec | aethra/graph/processor.py:22-23 | after adding every label as a node, the nodes are exactly the labels, each once |
| Processor.AddNodesDistinct | aethra/graph/processor.py:22-23 | distinct labels become the node list unchanged and in order |
| Processor.RowEdgesSucceeds | aethra/graph/processor.py:27-29 | the inner loop succeeds iff every column of the row has a label, and otherwise fails with the KeyError of such a column |
| Processor.RowEdgesFrame | aethra/graph/processor.py:27-29 | the inner loop only adds edges out of the row's label towards labels of its columns, and keeps edges out of other nodes |
| Processor.RowEdgesWeights | aethra/graph/processor.py:27-29 | with distinct keys and labels, after the inner loop each column's edge carries exactly that column's weight |
| Processor.AllEdgesEndpoints | aethra/graph/processor.py:25-29 | every built edge leaves a processed item's label and enters a label of the map |
| Processor.AllEdgesWeights | aethra/graph/processor.py:25-29 | with distinct keys and labels, for every processed item and column, the edge between their labels carries the matrix entry |
| Processor.AllEdgesSucceeds | aethra/graph/processor.py:25-29 | edge construction succeeds iff every key names a row and every column of those rows has a label; a failure is that IndexError or KeyError |
| Processor.BuildNodes | aethra/graph/processor.py:22-23 | every label becomes a node, once, including labels no edge touches; with distinct labels the nodes are the labels in order |
| Processor.BuildWellFormed | aethra/graph/processor.py:18-30 | the constructed graph has both ends of every edge among its nodes |
| Processor.BuildFails | aethra/graph/processor.py:26-28 | construction fails iff a key has no row (IndexError) or a column has no label (KeyError); nothing is padded or skipped |
| Processor.BuildWeighted | aethra/graph/processor.py:29 | every constructed edge has a weight attribute |
| Processor.BuildEdges | aethra/graph/processor.py:25-29 | with distinct keys and labels, for every key and every column of its row, the edge between their labels has exactly that entry as weight |
| Processor.BuildSquare | aethra/graph/processor.py:18-30 | an N x N matrix with labels keyed 0..N-1 in order and distinct is built without error, with the labels as nodes in order |
| Processor.BuildSquareCell | aethra/graph/processor.py:25-29 | in that case the edge from label i to label j exists with weight `matrix[i][j]`, zero included |
| Processor.BuildDense | aethra/graph/processor.py:25-29 | in that case the edges are exactly all ordered pairs of labels |
| Processor.BuildEdgeCount | aethra/graph/processor.py:25-29 | in that case there are exactly N * N edges |
| Processor.ExtractCells | aethra/graph/processor.py:59-74 | extraction indexes labels 0..M-1 in node order, gives an M x M matrix with each edge's weight (0.0 when it has none) at its endpoints' indices, and 0.0 at every cell without an edge |
| Processor.RoundTrip | aethra/graph/processor.py:18-74 | extracting from the graph built from an N x N matrix with distinct labels keyed 0..N-1 in order gives back that matrix and label map |
| Processor.ExtractAfterThreshold | aethra/graph/processor.py:44-45 | extracting after the threshold filter gives the same label map and the extracted matrix with the entries below the threshold set to 0.0 |
| Processor.PipelineZeroesBelowThreshold | aethra/graph/processor.py:44-46 | build, filter at `t` and extract on a well-shaped input gives the original label map and matrix with the entries below `t` zeroed |
| Processor.IndexMap | aethra/graph/processor.py:61 | `node_to_index` has exactly the nodes as keys and maps each to its position |
| Processor.GraphProcessor.Create | aethra/graph/processor.py:6-16 | for a label map with distinct keys (a dict), the processor stores the matrix and label map and a fresh graph equal to `Build` of them, or raises the construction error |
| Processor.GraphProcessor.ConstructGraph | aethra/graph/processor.py:18-30 | for a label map with distinct keys (a dict), the nested loops produce a fresh well-formed graph equal to `Build`, or return `Build`'s error |
| Processor.GraphProcessor.AddLabelNodes | aethra/graph/processor.py:20-23 | the first loop gives a fresh graph whose nodes are the labels added in order and which has no edges |
| Processor.GraphProcessor.AddRowEdges | aethra/graph/processor.py:27-29 | the inner loop leaves the nodes alone and turns the edges into `RowEdges` of the old edges, or stops with its KeyError |
| Processor.GraphProcessor.ExtractIntentAndMatrix | aethra/graph/processor.py:49-74 | returns exactly `Extract` of the graph: the label map in node order and the matrix the edge loop fills |
| Processor.GraphProcessor.WriteEdgeWeights | aethra/graph/processor.py:68-72 | the loop over the edges, in any order, turns the zero matrix into the one with every edge's weight (0.0 when it has none) at its endpoints' cell |
| Processor.GraphProcessor.FilterGraph | aethra/graph/processor.py:32-47 | on the filter's error nothing changes; otherwise the graph becomes the fresh filtered graph (`Threshold` of the old one), it is returned, and the label map and matrix equal `Extract` of it; the old graph is not modified |
| Client.StripTrailingSlashes | aiklyra/client.py:43 | the stripped URL is a prefix of the input, does not end in '/', and only slashes were removed |
| Client.StripIdempotent | aiklyra/client.py:43 | stripping twice equals stripping once |
| Client.StripIgnoresSlashes | aiklyra/client.py:43 | appending slashes to a base URL does not change the stripped URL |
| Client.Contains | aiklyra/client.py:111 | computes Python's `sub in s` on strings |
| Client.ContainsSpec | aiklyra/client.py:111 | `sub in s` holds iff `sub` occurs at some position of `s` |
| Client.NatToString | aiklyra/client.py:118 | the decimal rendering of a status code is non-empty, made of digits, has no leading zero, and is "0" exactly for zero |
| Client.NatToStringRoundTrip | aiklyra/client.py:118 | the decimal rendering of a status code reads back as the code |
| Client.HttpErrorMessage | aiklyra/client.py:117-118 | the message of an unexpected status is "Error ", the code's digits (reading back as the code, no leading zero), ": " and the body text |
| Client.ErrorMessage | aiklyra/client.py:76-118 | computes the text of each exception `analyse` raises, with the code's exact wording |
| Client.ServerErrorMessage | aiklyra/client.py:117-118 | the message for status 500 begins with "Error 500", as the generic-error test at tests/test_client.py:89-103 expects |
| Client.ValidateArgs | aiklyra/client.py:75-80 | computes the first failing check, in the order dict, positive bounds, min not above max, as a ValidationError with the code's message, or None when all pass |
| Client.ValidateArgsSpec | aiklyra/client.py:75-80 | arguments pass iff the data is a dict and 0 < min <= max (equal bounds pass); failures are ValidationErrors whose message is that of the first failing check, in the order type, positivity, ordering |
| Client.KeepRole | aiklyra/client.py:86 | computes `[msg for msg in conv if msg["role"] == role]`, or None where a message has no "role" and Python raises KeyError |
| Client.KeepRoleFails | aiklyra/client.py:86 | filtering a conversation raises KeyError iff some message has no "role" |
| Client.KeepRoleSpec | aiklyra/client.py:86 | kept messages all have the role, each message with the role is kept as often as it occurs, and the kept ones keep their order |
| Client.KeepRoleIdempotent | aiklyra/client.py:86 | filtering a filtered conversation again changes nothing |
| Client.KeepRoleAll | aiklyra/client.py:86 | a conversation whose messages all have the role is kept whole |
| Client.RoleFiltered | aiklyra/client.py:84-87 | computes the dict built by the role-filter loop: each conversation id with its kept messages, or None for the loop's KeyError |
| Client.SentConversations | aiklyra/client.py:83-87 | computes the conversation data that is sent: unchanged for role "Any", `RoleFiltered` otherwise |
| Client.RoleFilteredSpec | aiklyra/client.py:83-87 | the role filter fails iff some message of some conversation has no "role"; otherwise every conversation id stays, possibly empty, with exactly its messages of that role in order |
| Client.FilterByRole | aiklyra/client.py:84-87 | the loop over conversation ids builds exactly `RoleFiltered` of the data, whatever the id order |
| Client.RequestUrl | aiklyra/client.py:90 | computes the request URL: the base URL, "/", then the analysis endpoint |
| Client.Classify | aiklyra/client.py:99-118 | computes the outcome from the reply: a transport failure, then status 200 (parsed body or AnalysisError), 403 (by detail), and any other status, in the code's order |
| Client.RequestUrlSpec | aiklyra/client.py:90 | the request URL is the stripped base URL, one '/', then the endpoint; trailing slashes on the configured base do not change it |
| Client.ClassifySuccess | aiklyra/client.py:99-108 | only a 200 whose body parses is a result, and it is that body; a 200 that does not parse is an AnalysisError; a transport failure is "Request failed" |
| Client.ClassifyForbidden | aiklyra/client.py:109-116 | a 403 is InvalidAPIKey iff its detail contains "Invalid API Key", otherwise InsufficientCredits iff it contains "Insufficient credits", otherwise Forbidden with that detail; a missing detail counts as empty |
| Client.ClassifyOther | aiklyra/client.py:117-118 | any other status is an error with that status and the body text, with message "Error <status>: <text>" |
| Client.AiklyraClient.constructor | aiklyra/client.py:34-47 | the client keeps the key, the base URL without trailing slashes (default `http://localhost:8002`), and bearer-token and JSON content-type headers |
| Client.AiklyraClient.Analyse | aiklyra/client.py:75-118 | invalid arguments and a message without "role" fail before any request is made; otherwise exactly one request goes to `RequestUrl(baseUrl)` with the client's headers and the (role-filtered unless "Any") conversations, and the outcome is the classification of the reply |

## Left out

- The HTTP transport and schema models are not modelled (`requests.post`, and the pydantic request and response models at aiklyra/client.py:91-106). The reply is a parameter; parsing a 200 body is its `parsed` field.
- A 403 whose body is not JSON is not modelled: `response.json()` then raises an error the client does not wrap. Neither is a 403 whose JSON body is not an object (`.get` then raises AttributeError), nor a `detail` that is not a string. `Classify` takes the detail as an optional string.
- The `np.array` conversion at aethra/graph/processor.py:42 is not modelled. Besides feeding the extra arguments of the defective call at line 44, it raises ValueError on a ragged matrix (numpy 1.24 and later). Construction accepts a ragged matrix whose indices all resolve, so a processor built from one fails in `filter_graph` at line 42, while `FilterGraph` succeeds on it.
- `filter_graph` accepts any `BaseGraphFilter`. The model takes `ThresholdFilter` as the filter; `BaseGraphFilter` is not part of this model.
- `GraphProcessor.visualize_graph`, the graph visualizers, the metrics, the settings loader and the file-extraction script are not modelled. They are rendering, remote LLM calls, floating-point scoring, or environment and file I/O.
- Floating-point weights are modelled as reals. NaN and rounding are not modelled, since weights are only copied and compared.
- The `int(i)` and `int(j)` conversions (aethra/graph/processor.py:26, 28) are not modelled: label keys are integers from the start. With string keys, as the service's JSON gives them (tests/test_client.py:201), `transition_matrix[int(i)]` at line 26 resolves but `intent_by_cluster[int(j)]` at line 28 raises KeyError, so no graph with a non-empty row can be built from such a map; the model does not capture that failure.
- A numpy matrix passed in place of a list is not modelled; the matrix is a list of rows.
- Iteration order is left open in two places, and the results are proved not to depend on it: the order of the edges in extraction and in the filter, and the order of the conversation ids in the role filter.
- The key order of the conversation dict sent to the server is not modelled: the conversations are a map.
- `top_k_nearest_to_centroid` is passed to the server unchecked, as in the code.
- The tests call `submit_analysis` and `check_job_status`, which `AiklyraClient` does not define; they are not modelled.
- Processor.GraphProcessor.Create: a constructor cannot fail, so `__init__` is a static method that returns the processor or the construction error.
