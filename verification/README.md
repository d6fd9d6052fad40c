# Path-segment sanitiser of the Neo4j graph provider

The Neo4j test provider of the graph-computation project has a helper,
`cleanPathSegment`, that removes the characters that are not acceptable in a
file path, mostly with Windows in mind. There are fourteen
such characters, given by a regular-expression character class:
`.` `\` `/` `:` `*` `?` `"` `<` `>` `|` `[` `]` `(` `)`. If nothing is left, it
raises an `IllegalStateException` that names the segment. Otherwise it returns
the filtered string.

The model has three modules:

- `Wrappers` holds the `Result` type. A normal return is `Ok`. The exception is
  `Err(EmptySegment(toClean))`.
- `PathSegment` holds the forbidden set and `Clean`, the deletion as a pure
  filter. It also holds `ReplaceAllForbidden`, a left-to-right scan with the same
  output as `String.replaceAll` with an empty replacement, proved equal to
  `Clean`. Last comes
  `CleanPathSegment`, the sanitiser with its failure case.
- `PathSegmentLemmas` states the sanitiser's promises against definitions that
  do not mention `Clean`. These are a declarative subsequence relation, a count
  of forbidden characters, and character multiplicities (multisets).

Strings are `seq<char>`, and a Dafny `char` is a Unicode scalar value. All
fourteen forbidden characters are ASCII, so deleting them scalar value by
scalar value gives the same characters, in the same order, as Java's
regular-expression engine. The emptiness test agrees too. Lengths differ:
the model counts scalar values where Java's `length()` counts UTF-16 code
units (see "## Left out").

## Model

| member | source | states |
|---|---|---|
| PathSegment.Clean | neo4j-gremlin/src/test/java/com/tinkerpop/gremlin/neo4j/AbstractNeo4jGraphProvider.java:43 | the result is never longer than the input; a character occurs in it iff it occurs in the input and is not one of the fourteen; no forbidden character is left |
| PathSegment.CleanAppend | neo4j-gremlin/src/test/java/com/tinkerpop/gremlin/neo4j/AbstractNeo4jGraphProvider.java:43 | the deletion acts on each character independently: cleaning a concatenation is concatenating the cleaned parts |
| PathSegment.ReplaceAllForbidden | neo4j-gremlin/src/test/java/com/tinkerpop/gremlin/neo4j/AbstractNeo4jGraphProvider.java:43 | a left-to-right scan keeping each non-matching character yields exactly the filtered string, as `replaceAll` with an empty replacement does |
| PathSegment.CleanPathSegment | neo4j-gremlin/src/test/java/com/tinkerpop/gremlin/neo4j/AbstractNeo4jGraphProvider.java:42-46 | succeeds iff some character of the input is allowed; a success is the filtered input, non-empty, no longer than the input and free of forbidden characters; a failure is the exception for the given segment |
| PathSegmentLemmas.CleanPathSegmentValue | neo4j-gremlin/src/test/java/com/tinkerpop/gremlin/neo4j/AbstractNeo4jGraphProvider.java:43-45 | a successful result is a forbidden-free subsequence of the input, shorter by exactly the forbidden count, which with `CleanIsUnique` makes it the input with the forbidden characters removed |
| PathSegmentLemmas.CleanIsSubsequence | neo4j-gremlin/src/test/java/com/tinkerpop/gremlin/neo4j/AbstractNeo4jGraphProvider.java:43 | the kept characters appear in their original order: the result is a subsequence of the input |
| PathSegmentLemmas.CleanLength | neo4j-gremlin/src/test/java/com/tinkerpop/gremlin/neo4j/AbstractNeo4jGraphProvider.java:43 | the result is shorter than the input by exactly the number of forbidden characters in it |
| PathSegmentLemmas.CleanContents | neo4j-gremlin/src/test/java/com/tinkerpop/gremlin/neo4j/AbstractNeo4jGraphProvider.java:43 | each allowed character occurs in the result exactly as often as in the input; forbidden characters occur zero times |
| PathSegmentLemmas.CleanIsGreatest | neo4j-gremlin/src/test/java/com/tinkerpop/gremlin/neo4j/AbstractNeo4jGraphProvider.java:43 | any forbidden-free subsequence of the input is a subsequence of the result, so only forbidden characters are dropped |
| PathSegmentLemmas.CleanIsUnique | neo4j-gremlin/src/test/java/com/tinkerpop/gremlin/neo4j/AbstractNeo4jGraphProvider.java:43 | the result is the only forbidden-free subsequence of the input whose length is the input's length minus its forbidden count |
| PathSegmentLemmas.CleanFixesExactlyClean | neo4j-gremlin/src/test/java/com/tinkerpop/gremlin/neo4j/AbstractNeo4jGraphProvider.java:43 | the deletion leaves a string unchanged iff the string has no forbidden character |
| PathSegmentLemmas.CleanIdempotent | neo4j-gremlin/src/test/java/com/tinkerpop/gremlin/neo4j/AbstractNeo4jGraphProvider.java:43 | deleting twice gives the same string as deleting once |
| PathSegmentLemmas.CleanPathSegmentKeepsValid | neo4j-gremlin/src/test/java/com/tinkerpop/gremlin/neo4j/AbstractNeo4jGraphProvider.java:43-45 | a non-empty segment without forbidden characters is returned unchanged |
| PathSegmentLemmas.CleanPathSegmentIdempotent | neo4j-gremlin/src/test/java/com/tinkerpop/gremlin/neo4j/AbstractNeo4jGraphProvider.java:43-45 | sanitising a successful result again succeeds and returns the same string |
| PathSegmentLemmas.CleanPathSegmentFailsIffAllForbidden | neo4j-gremlin/src/test/java/com/tinkerpop/gremlin/neo4j/AbstractNeo4jGraphProvider.java:44 | the sanitiser fails iff every character is forbidden, the empty segment included; a second clause pins the exception message text |

## Left out

- `clear` (AbstractNeo4jGraphProvider.java:19-31) rolls back a transaction, closes the graph and deletes a directory. All of that is database and filesystem I/O.
- `loadGraphData` and `createIndices` (AbstractNeo4jGraphProvider.java:34-124) call Neo4j's schema and auto-index APIs at random, chosen by `java.util.Random`. They are foreign calls with randomised behaviour.
- GryoRecordReaderWriterTest.java is a disabled JUnit test of Hadoop input/output formats, and those formats are not part of this model. Its progress value is a `float`.
- ScriptTraversal.java is an interface without behaviour. Its results are `java.util.concurrent.Future`s.
- The graph codec, split reader/writer, messenger, memory and driver of the wider system have no implementation among the modelled files.
- CleanLength: lengths count Unicode scalar values, not the UTF-16 code units that `cleaned.length()` counts. A character outside the Basic Multilingual Plane is one `char` here and two code units in Java. The deletion result and the emptiness test do not depend on this.
- PathSegment.CleanPathSegment: the bound `|r.value| <= |toClean|` is in scalar values, for the same reason.
- A Java `String` holding an unpaired surrogate has no counterpart: Dafny `char` values are Unicode scalar values.
- A `null` segment makes `toClean.replaceAll` throw `NullPointerException`. A Dafny `string` cannot be null, so that exception is not modelled.
- Regular-expression semantics beyond the fixed character class are not modelled. Neither is the text of the stack trace.
