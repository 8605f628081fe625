# cloudflare-gateway-pihole: the domain pipeline and the run decisions, in Dafny

This project models the core of class `App` in `src/utils.py` of
cloudflare-gateway-pihole. That class turns ad-block list files into Cloudflare
Gateway lists and one blocking policy. The model covers five parts:

- **Normalizer** (`normalizer.dfy`, `App.convert_domains`). One raw line becomes
  a canonical domain, or nothing. Blank lines and lines starting with `#`,
  `!` or `/` are rejected. The rest is lowercased, stripped, cut at the first
  `#` and then at the first `^`, and cleared of `\r`. One match of the replace
  pattern is removed, the result goes through the IDNA codec, and it is kept
  when it matches the domain pattern and not the IP pattern. The three
  patterns and the codec are defined outside `src/utils.py`. They enter as the
  fields of a `Patterns` value, a match span and three functions, so every
  property is proved for all patterns and codecs. A codec failure is `None`.
- **Consolidator** (`consolidator.dfy`, `App.convert_to_domain_list`). It loops
  over the lines of the allow-list text and of the block-list text into two
  sets, reduces the block set, takes the allowed domains away, and sorts the
  rest. The loops are proved against `DomainsOf`, the set of non-empty results
  over the lines. The whole method is proved against `IsFinalList`: the list
  is strictly ascending and holds exactly the reduced block domains that are
  not allowed.
- **Reducer** (`reducer.dfy`, `App.remove_subdomains`). The two set loops, the
  `is_subdomain` flag and the `break` are kept. The method is proved equal to
  `Reduced`. Lemmas about `Reduced` show:
  - nothing is lost (coverage);
  - the highest multi-label ancestor present is always kept;
  - no kept multi-label domain is an ancestor of another;
  - reducing twice changes nothing.
- **Chunker** (`chunker.dfy`, `App.chunk_list`). The index-stepping loop is
  proved equal to `Chunks`. `Chunks` covers the list in order with non-empty
  slices of at most n, all but the last exactly n, and ⌈len/n⌉ of them. Those
  conditions determine the slices uniquely.
- **Reconciler** (`reconciler.dfy`, `App.__init__` and the branching of
  `App.run`). It runs over `Gateway.Store`, an in-memory class that stands in
  for the remote store (`store.dfy`, the `cloudflare` module's calls). The
  predicate `Reconciled` gives, for a store snapshot and the final list, the
  run's outcome and the store's whole new state on each of the seven ways a
  run can end. `App.Run` is proved against it. Lemmas about `Reconciled` show:
  - a run converges: once a run gets past the size checks, a second run over
    the same list finds the counts equal and some policy under the app prefix,
    and changes nothing. When the first run created or updated the policy,
    that policy blocks exactly the app's lists. When it ended with several
    policies, the only ones left are old ones under the prefix with other
    names, none of them carrying the policy name, and every later run over
    the same list leaves the store in that state;
  - the store hands out every id once: no two lists and no two policies share
    an id, and every id is below the next one given out. Every store
    operation and every run keeps that invariant, so run after run no run
    touches a list outside the app's namespace;
  - after a rebuild the app's lists hold the final list, at most 1000 per
    list, and their names are distinct.

  Two more lemmas cover the name prefix `[AdBlock-<name>]`. It separates two
  apps when neither name contains `]`. When one does, app `a` takes the
  records of app `a]…` for its own.

Supporting modules:

- `text.dfy` holds the Python string operations the core uses: `str.strip`
  with Python's whitespace set, `split`, `join`, `str.splitlines` with
  Python's line-break set and `\r\n` as one break, and `replace`. It also
  proves the split/join round trips.
- `order.dfy` holds code-point ordering, the sort, and the uniqueness of a
  strictly ascending list with a given set of elements.

The model follows the code at two points where it behaves differently from
what a reader might expect:

- A block domain is not dropped for every ancestor in the block set. The code
  looks for ancestors only among multi-label domains, so a single-label entry
  such as `com` never drops `a.com`. This is proved in
  `Reducer.SingleLabelAncestorIgnored`.
- Finding more than one policy does not leave the store untouched. The run
  fails only on the rebuild path, and only after it has deleted the policies
  named with the policy name, deleted the old lists and created the new ones.
  Under the stand-in's assumption about `delete_gateway_policy`, listed
  below with what is left out, two policies that both carry the policy name are both
  deleted, and a fresh policy is created (`Reconciler.LeftoverPolicies`).
  Only policies under the app prefix that carry another name can cause the
  failure. The store is then stuck: the new lists are blocked by no policy
  carrying the policy name, and every later run over the same list ends
  `AlreadyInSync` (`Reconciler.StuckAfterMultiplePolicies`). On the
  equal-count path any number of existing policies means nothing is done.

## Model

| member | source | states |
|---|---|---|
| Normalizer.ConvertDomain | src/utils.py:137-150 | An empty line or one starting with `#`, `!` or `/` gives no domain. A codec failure gives no domain. Any domain returned matches the domain pattern and not the IP pattern, and is the codec's output for the cleaned, prefix-stripped line. Conversely, a line that is not empty and not a comment, whose codec output exists, matches the domain pattern and fails the IP pattern, gives exactly that output. |
| Normalizer.Clean | src/utils.py:142 | The cleaned line contains no `#`, no `^` and no `\r`. |
| Normalizer.CleanCutsAtFirstMarker | src/utils.py:142 | Cutting at the first `#` and then at the first `^` is cutting the lowercased, stripped line before whichever marker comes first, then removing `\r`. |
| Normalizer.SubOnce | src/utils.py:143 | Removing one pattern match never lengthens the text and adds no character. With no match the text is unchanged. |
| Normalizer.SubOnceRemovesMatch | src/utils.py:143 | An in-range match is cut out exactly once: the text before it is kept, the text after it follows directly, and the length drops by the match's length. A match span out of range leaves the text unchanged. |
| Normalizer.CanonicalIsFixpoint | src/utils.py:137-150 | A domain meeting `Canonical` is returned unchanged. This is not idempotence on every result: for some replace patterns a returned domain normalises further. |
| Consolidator.ConvertToDomainList | src/utils.py:108-135 | The result is strictly ascending. Its elements are exactly the reduced set of block-line domains minus the set of allow-line domains. |
| Consolidator.CollectDomains | src/utils.py:113-125 | Each of the two loops over the lines builds exactly `DomainsOf` of those lines: the non-empty results of normalising them. |
| Consolidator.DomainsOfMembers | src/utils.py:113-125 | A domain is in the set built over the lines if and only if it is the non-empty result of normalising one of those lines. |
| Consolidator.DomainsOfValid | src/utils.py:113-125 | Every domain in a set built over lines is non-empty, matches the domain pattern and not the IP pattern. |
| Consolidator.FinalListContents | src/utils.py:127-135 | The final list has no duplicates. Each entry comes from a block line, is never allowed, is a valid non-IP domain, and has no multi-label ancestor among the block domains. Conversely, every block domain that is not allowed and is single-label or has no multi-label ancestor among the block domains is in the list. |
| Consolidator.FinalListDeterministic | src/utils.py:131 | Any two lists meeting the final-list conditions for the same texts are equal: the order is fixed by sorting. |
| Reducer.RemoveSubdomains | src/utils.py:152-177 | The result equals `Reduced(domains)`: single-label domains are kept, and a multi-label domain is kept exactly when none of its strict dot-suffix ancestors is a multi-label input. It is a subset of the input, and every single-label input is in it. |
| Reducer.Coverage | src/utils.py:164-175 | Every input domain is kept or has a strict ancestor that is kept. |
| Reducer.ShortestHigherKept | src/utils.py:164-175 | The highest multi-label ancestor of a domain present in the input is always kept. |
| Reducer.NoKeptAncestor | src/utils.py:164-175 | No kept multi-label domain has a multi-label ancestor that is also kept. |
| Reducer.ReducedIdempotent | src/utils.py:152-177 | Reducing the reduced set changes nothing. |
| Reducer.HigherIsDotSuffix | src/utils.py:168-169 | `".".join(parts[i:])` is a proper suffix of the domain that follows a dot: the domain is its first i labels, a dot, then the ancestor. |
| Reducer.HigherLabels | src/utils.py:165-169 | The labels of an ancestor are the trailing labels of the domain. |
| Reducer.HigherOfHigher | src/utils.py:168-169 | An ancestor of an ancestor is an ancestor, with the label counts added. |
| Reducer.SingleLabelAncestorIgnored | src/utils.py:159-175 | `com` is the ancestor of `a.com`, yet both are kept, because only multi-label domains are looked up. |
| Chunker.ChunkList | src/utils.py:179-181 | The loop yields exactly `Chunks(xs, n)`. |
| Chunker.ChunksCover | src/utils.py:179-181 | The chunks concatenate to the list. Each is non-empty and at most n long, all but the last exactly n. There are none for an empty list, and otherwise ⌈len/n⌉ of them. |
| Chunker.ChunkingUnique | src/utils.py:179-181 | Any cover of the list by such slices is the one `chunk_list` yields. |
| Order.SortSet | src/utils.py:131 | `sorted(list(s))` is strictly ascending in code-point order, has the elements of s, and has length \|s\|. |
| Order.AscendingUnique | src/utils.py:131 | Two strictly ascending lists with the same elements are equal. |
| Order.BelowTotal | src/utils.py:131 | Code-point string order is total on distinct strings. |
| Text.SplitLines | src/utils.py:114 | No line that `str.splitlines` yields contains a line break. |
| Text.SplitLinesTerminated | src/utils.py:114 | Splitting break-free lines, each ended by `\n`, gives the lines back. |
| Text.SplitLinesConsCRLF | src/utils.py:114 | A break-free line followed by `\r\n` splits off as exactly that line: the pair is one boundary. |
| Text.SplitLinesConsBreak | src/utils.py:114 | A break-free line followed by any single Python line break (a `\r` not followed by `\n` included) splits off as exactly that line. |
| Text.SplitLinesLast | src/utils.py:114 | A non-empty break-free text with no final break is one line. |
| Text.SplitLinesTerminatedCRLF | src/utils.py:114 | Splitting break-free lines, each ended by `\r\n`, gives the lines back. |
| Text.Lower | src/utils.py:142 | Lowercasing keeps the length, leaves no ASCII capital, keeps every other character and moves each capital 32 code points down. |
| Text.StripKeepsMiddle | src/utils.py:142 | `strip()` keeps one contiguous stretch of the line that neither starts nor ends with whitespace; all that is cut before and after it is whitespace. |
| Text.Split | src/utils.py:142 | `split(c)` yields at least one piece and no piece contains c; `Text.JoinSplit` shows joining the pieces with c gives the text back. |
| Text.SplitFirst | src/utils.py:142 | `split(c)[0]` is the text before the first c, or the whole text when there is none. |
| Text.RemoveChar | src/utils.py:142 | `replace("\r", "")` leaves no `\r`, adds no character, and leaves a text without `\r` unchanged. |
| Text.RemoveCharConcat | src/utils.py:142 | Removing `\r` distributes over concatenation. With `RemoveChar`'s ensures, every other character is kept, in order, and every `\r` is removed. |
| Gateway.IdsOf | src/utils.py:51 | `[l["id"] for l in cf_lists]` has one id per list, in list order. |
| Text.JoinSplit | src/utils.py:157-169 | Joining the labels of a domain with `.` gives the domain back. |
| Text.SplitJoin | src/utils.py:165-169 | Splitting joined dot-free labels gives the labels back. |
| Reconciler.NamePrefix | src/utils.py:14 | The prefix is `[AdBlock-`, the list name, then `]`. |
| Reconciler.App.constructor | src/utils.py:8-14 | The app keeps its name and URL lists. Its name prefix is `NamePrefix(adlist_name)`. |
| Reconciler.App.Run | src/utils.py:26-98 | The domains are the final list for the two texts. The outcome and the store's new state are those `Reconciled` gives for the old state and that list. A well-formed store stays well formed. |
| Reconciler.App.Reconcile | src/utils.py:28-98 | The run behaves as `Reconciled` gives, in four cases. (1) Zero domains, or more than 300000: the run stops and the store is unchanged. (2) The app's lists already count as many domains and no app policy exists: one policy named `<prefix> Block Ads` is created over the existing list ids, and nothing else changes. (3) Counts equal and a policy exists: nothing changes. (4) Otherwise the run rebuilds as `Rebuilt` gives. |
| Reconciler.App.Rebuild | src/utils.py:57-98 | It deletes the policies named `<prefix> Block Ads…`. It deletes the app's lists and creates list `<prefix> i+1` for chunk i (counting from 0) of 1000 domains, with the next ids. Then it creates a policy over the new lists if no app policy is left, updates the single one left, or fails with the store as it then is. |
| Reconciler.App.ReplaceLists | src/utils.py:59-78 | After the policies named with the policy name and the fetched lists are deleted and one list per chunk is created, the store holds the other lists followed by the new ones and the other policies, and its counter has moved on by the number of new lists. A well-formed store stays well formed. |
| Reconciler.App.SetUpPolicy | src/utils.py:80-96 | With no app policy it creates one over the given lists. With exactly one it renames that one to the policy name and points it at the lists. With more it fails and changes nothing. |
| Reconciler.App.DeleteLists | src/utils.py:63-69 | Deleting the fetched lists one by one removes exactly their ids and changes no policy. |
| Reconciler.App.CreateLists | src/utils.py:71-78 | Chunk i becomes a new list named `<prefix> i+1` with the next free id. The lists come back in chunk order, and nothing else changes. |
| Reconciler.SecondRunDoesNothing | src/utils.py:29-98 | After any run that got past the size checks, a second run over the same final list ends `AlreadyInSync` and leaves the store exactly as the first run left it. |
| Reconciler.RunInPlace | src/utils.py:43-96 | After any run that got past the size checks, an app policy exists and the app's lists count exactly the final list's length. When the run created or updated the policy, a policy carrying the policy name blocks exactly the app's lists. |
| Reconciler.RebuiltInPlace | src/utils.py:59-96 | After a rebuild an app policy exists and the app's lists count the domains. A created or updated policy carries the policy name and blocks exactly the app's new lists. After `MultiplePolicies` every policy left was there before the run, and none carries the policy name. |
| Reconciler.PolicySetUpInPlace | src/utils.py:80-98 | Setting up the policy over the app's lists leaves the lists alone and some app policy in place. A created or updated policy blocks exactly the app's lists. A failure changes nothing. |
| Reconciler.StuckAfterMultiplePolicies | src/utils.py:80-91 | After a run that ends with several policies, no policy carries the policy name, and the next run over the same list ends `AlreadyInSync` and changes nothing. |
| Reconciler.OtherListsUntouched | src/utils.py:39-78 | Where list ids are distinct, the lists not named with the app prefix are the same, in the same order, after any run. |
| Reconciler.ReconciledWellFormed | src/utils.py:29-98 | Every way a run can end leaves a well-formed store well formed: list ids and policy ids stay distinct and below the next id. |
| Reconciler.RebuiltWellFormed | src/utils.py:59-98 | A rebuild keeps a well-formed store well formed: the new lists and a new policy take fresh ids above every id in use. |
| Reconciler.ReplacedWellFormed | src/utils.py:59-78 | Deleting the app's lists and the policies named with the policy name, then adding lists with the next ids, keeps a well-formed store well formed. |
| Reconciler.OtherListsUntouchedTwice | src/utils.py:29-98 | From a well-formed store, two runs in a row over any lists of domains leave the store well formed and the lists outside the app prefix as they were, in order. |
| Reconciler.RebuildLeavesOthers | src/utils.py:63-78 | Deleting the app's lists and adding lists under its prefix leaves the other lists as they were. |
| Reconciler.NamedAfterRebuild | src/utils.py:63-78 | After the rebuild the lists named with the app prefix are exactly the new ones. |
| Reconciler.NewListsHoldDomains | src/utils.py:71-76 | The new lists hold the final list chunk by chunk, each with 1 to 1000 domains, and their total count is its length. |
| Reconciler.RebuildConverges | src/utils.py:43-78 | After a rebuild the app's lists are exactly the new lists, they hold the final list, and their total count is its length: the check at line 44 then holds. |
| Reconciler.TotalCountItems | src/utils.py:44 | The sum of the lists' counts is the length of their items laid end to end. |
| Gateway.DeletingNamedKeepsOthers | src/utils.py:63-69 | Where ids are distinct, deleting the ids of the lists named with a prefix removes those lists and keeps every other list in order. |
| Reconciler.PolicyName | src/utils.py:60 | The policy name is the app prefix followed by ` Block Ads`. |
| Reconciler.ListName | src/utils.py:74 | A list name is the app prefix, a space, then the decimal form of the chunk number. |
| Reconciler.NatToString | src/utils.py:74 | The decimal form of a number is non-empty, all digits, and has no leading zero unless the number is 0. |
| Reconciler.NatToStringValue | src/utils.py:74 | The digits `NatToString(n)` writes denote n, read most significant digit first. |
| Reconciler.ListNamesDistinct | src/utils.py:73 | Different chunk numbers give different list names. |
| Reconciler.NatToStringInjective | src/utils.py:73 | Different numbers have different decimal forms. |
| Reconciler.NamespacesSeparate | src/utils.py:14 | When neither of two different app names contains `]`, no name under one app's prefix starts with the other app's prefix. |
| Reconciler.NamespaceCollision | src/utils.py:14 | App `a`'s prefix starts every list name of app `a]s`. |
| Reconciler.LeftoverPolicies | src/utils.py:58-60 | After the policy deletion, any policy still found under the app prefix does not carry the policy name. If every policy under the prefix does, none is found. |

## Left out

- The downloads (`download_file`, the HTTP session, and the joining of the downloaded texts at src/utils.py:17-24) are network I/O. `App.Run` takes the joined block-list and allow-list texts as inputs.
- `App.delete` (src/utils.py:183-196) is a fixed sequence of remote deletions with no decisions in it. It is not modelled.
- The `cloudflare` module is not part of this model. `Gateway.Store` stands in for it. That stand-in assumes:
  - lookups by name select the records whose name starts with the given text;
  - `delete_gateway_policy` removes the policies so selected and returns how many it removed;
  - a list's `count` is the number of its items;
  - new records get consecutive ids from a counter;
  - `update_gateway_policy` gives the policy with the given id the name passed and replaces its list references with the ids passed (`Gateway.WithListIds`);
  - the store starts empty and never reuses an id (`Gateway.WellFormed`).

  Wire formats, HTTP errors and failures part-way through a run are not modelled.
- The concurrency of `asyncio.gather` (src/utils.py:22, 69, 78) is modelled as sequential loops, with ids assigned in chunk order.
- The `logging` calls are not modelled.
- The regular expressions `replace_pattern`, `domain_pattern` and `ip_pattern`, and the IDNA codec with its `replace` error handler, are not modelled concretely. They are parameters: the properties hold for every choice of them.
- Normalizer.Clean: lowercasing is modelled on ASCII letters only. `str.lower` also folds non-ASCII letters, which the model leaves unchanged.
- Order.SortSet: Python's `sorted` is modelled as an insertion sort over the set. Only its result matters: the ascending list of the elements, in code-point order as Python compares strings.
- Chunker.ChunkList: requires n > 0. Python's `range` raises an error for a step of 0 and yields nothing for a negative step. The code only ever passes 1000.
- Reconciler.App.SetUpPolicy: the failure on several policies is the outcome `MultiplePolicies`, not an exception. The store is left as the run left it at that point.
