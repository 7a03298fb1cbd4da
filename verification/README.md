# libHX: a verified model of its maps, parsers and exact arithmetic

libHX is a C utility library. This project models, in Dafny, the parts of it whose
correctness is not obvious from reading one function, and proves what they promise.
The models keep the form of the code: node fields, path arrays, bucket lists, cursors and
buffers are updated in place by loops, and every such method is proved against a
specification function or an invariant about which the laws are then proved.

**Red-black tree map** (`RbTheory`, `RbHeap`, `RbInsert`, `RbDelete`, `RbRemove`, `RbMap`,
`RbKeys`). Nodes have no parent pointer; insertion and deletion record the descent in
`path[]` and `dir[]`. A ghost tree names the node at every position, and the two arrays are
proved to be a zipper (`Ctx`) over it. All pointer changes are shown to keep the heap in step
with that picture (`Zip`). Insertion and deletion keep search order, black root, no red node
with a red child and equal black heights, and change the mapping by exactly one binding.
`path[0]` is a sentinel node (`anchor`) standing for the address of `root`.

**Ordered traverser** (`RbTrav`, `RbSession`). The traverser keeps its own path, a checkpoint
key and a transaction id. Over every interleaving of additions, deletions and traversal steps
each step returns the least key after the last one returned. A path recorded before
insertions that only recolour stays usable (`Grown`); after a rotation or deletion it is rebuilt.

**Hash map** (`HashList`, `HashTable`, `HashLoad`, `HashStore`, `HashMap`, `HashTrav`,
`HashSession`, `HashWalk`). Circular lists in a bucket array over a prime table, with growing and shrinking
by relinking nodes. The map equals a finite map after every operation, whichever allocation
fails; relinking costs at most four moves an operation; a traverser survives changes, and the keys it passes by
are a function of the script and the log.

**Option parser** (`GetoptSpec`, `Getopt`, `GetoptLaws`, `GetoptWords`). The five-state machine with
its flag bits against a grammar that gives a meaning to each word, laws of that grammar, and what each
kind of word comes to, without the grammar's terms.

**Template expander** (`FormatSpec`, `Format`, `FormatScan`, `FormatTree`, `FormatLaws`, `FormatWords`,
`FormatTame`). The mutually recursive cursor code against a function on strings, and that function
against an evaluator of template trees, quoted arguments included.

**Path canonicaliser** (`RealpathSpec`, `Realpath`, `RealpathLaws`). String rewriting against
component-wise pathname resolution with an arbitrary table of symbolic links.

**Printers, parsers and arithmetic** (`Dequote`, `DequoteLaws`, `ShConfig`, `QuoteSpec`, `Quote`,
`QuoteLaws`, `DurationUnits`, `DurationSpec`, `Duration`, `DurationLaws`, `UnitSize`, `Timespec`). Round
trips, exact sizes, rounding bounds and signed time.

`MapTypes`, `CString` and `Arith` hold what several of these share.

## Reading notes

- Keys and data of both maps are integers: the pointer words that the default comparison and
  the default (absent) clone functions work on. The hash function is an arbitrary function.
- Transaction ids are 32-bit counters in the code and in the model; a ghost `epoch` counts
  without wrapping. A traverser is assumed to be called before 2^32 changes have passed it by.
- A freed node or bucket array is an object that is no longer reachable from the map.
- `HXMAP_NOREPLACE` is documented in `include/libHX/map.h:35`. The hash map follows it
  (`src/map.c:531`); the tree tests it the other way round (`src/map.c:668`). Each is modelled
  as coded.
- `HX_getopt6` returns `-EINVAL` when both orders are asked for; `doc/option_parsing.rst`
  speaks of `HXOPT_ERR_FLAGS`. The model follows the code.
- `HX_unit_size_cu` never prints a figure that is too small when the divisor is a multiple of
  ten from 60 to 477218588 (or 1). For every other divisor there are sizes whose figure is too
  small (`UnitSize.NeverLowExactly`): for 1024 and others because the tenths come from the last
  remainder only, above the bound because they overflow, and for 10 to 50 because the loop counts
  the terminator of `unit_names` as a unit, so that a size of the eleventh power is printed
  without a letter.
- The comment above `x_frac` promises no overflow for every denominator; that holds up to 65536
  and for none above (`HashLoad.FracExactly`). Its only call has the denominator 10.
- When the first bucket array cannot be allocated, `HXhashmap_init4` calls `HXumap_free`, whose
  loop then dereferences the missing array (`HashMap.FailedNewMap`).
- After a deletion the hash traverser goes on with the next bucket. Without a resize that costs
  exactly the keys not yet returned in its current bucket at the next step, and nothing else
  (`HashTrav.Traverser.Traverse`). Over a run they are `MissedBy` of its script and log: without a
  deletion there are none, and `HashWalk.SkippedKey` is a run that loses one.
- A template can lead the expander out of its string or hold it for ever; the specification gives it
  the outcome `Wild` then, and the methods ask that it does not occur. A text without references does so
  exactly with an odd number of percent signs at its end (`FormatLaws.CopiedExactly`), an unquoted
  reference that does not end exactly with an odd number of backslashes at its end
  (`FormatLaws.StandsStill`; otherwise it is an error), and a reference with a blank after its opening
  parenthesis when no closing parenthesis follows (`FormatLaws.BlankUnclosed`). A caller with a raw
  template can look at its characters: a text that passes `FormatTame.Tame` never does so
  (`FormatTame.TameExpands`).
- A hash traverser that has returned NULL is not asked again: the code would then compare with
  an address behind the bucket array.

## Model

| member | source | states |
|---|---|---|
| RbTheory.HeightBound | src/map_int.h:75-83 | a tree with the colour rules has height at most twice its black height, one less under a black root |
| RbTheory.SizeBound | src/map_int.h:75-83 | a tree of black height b has at least 2^b - 1 nodes |
| RbTheory.DepthBound | src/map_int.h:75-83 | with fewer than 2^24 - 1 nodes the height leaves every path index below RBT_MAXDEP |
| RbTheory.PlugHeight | src/map.c:693-713 | the recorded path and the subtree below it together are no longer than the tree is high |
| RbTheory.PlugRedBlack | src/map.c:599-661 | putting a sound subtree back at the focus gives a tree with all red-black rules |
| RbTheory.GrownTrans | src/map.c:658 | the relation between trees that differ by insertions and recolouring only composes |
| RbHeap.PlugZip | src/map.c:681-746 | closing the path gives the whole tree, with the same nodes and the pointers in place |
| RbHeap.RotatedOrder | src/map.c:620-660 | a rotation keeps the search order of the whole tree |
| RbHeap.Rotate | src/map.c:620-660 | the pointer changes of a rotation turn the heap picture into the rotated one |
| RbHeap.Record | src/map.c:695-713 | writing the next path[] and dir[] slot extends the zipper by one frame |
| RbInsert.RecolouredOk | src/map.c:606-618 | a recolouring step repairs one red pair and moves the only possible one two levels up |
| RbInsert.RecolouredGrown | src/map.c:606-618 | a recolouring step leaves every node at its place |
| RbInsert.BalancedOk | src/map.c:620-660 | the single or double rotation ends the repair with all colour rules |
| RbInsert.Repair | src/map.c:599-661 | one turn: recolours and leaves the one possible red pair two levels up, every node at its place, or rotates and is done |
| RbInsert.Amov | src/map.c:599-661 | from one red pair at path[depth-1] and its child to a sound tree, with the same nodes; says whether a rotation took place |
| RbMap.Insert | src/map.c:713-746 | linking a new node and repairing yields a red-black tree; without a new transaction id the old tree has only grown |
| RbMap.RbTree.Find | src/map.c:474-488 | the node with the key, and null exactly when the map has no such key |
| RbMap.RbTree.Replace | src/map.c:663-679 | replaces one value or returns -EEXIST, by the flag as the code reads it; no other node changes |
| RbMap.RbTree.Add | src/map.c:681-746 | the finite map gains exactly the binding, or stays on -EEXIST and -ENOMEM; all tree invariants kept; the transaction id changes unless the tree has only grown |
| RbDelete.SiblingExists | src/map.c:884-900 | the sibling dereferenced during the repair is never null, nor the nephews that are read |
| RbDelete.Case2Ok | src/map.c:888-900 | the rotation for a red sibling keeps the deficit at the same place with a black sibling and a longer path |
| RbDelete.Case3Ok | src/map.c:902-911 | recolouring the sibling moves the deficit up or ends the repair |
| RbDelete.Case5Ok | src/map.c:913-921 | the inner rotation gives the sibling a red outer child |
| RbDelete.Case6Ok | src/map.c:922-930 | the outer rotation ends the repair with all rules |
| RbDelete.Dmov | src/map.c:865-930 | from a missing black node anywhere to a sound tree with the same nodes, path indices in bounds including the extension |
| RbRemove.DelMm | src/map.c:810-863 | the in-order successor takes the deleted node's place, the path is patched, and the hole is where the repair starts |
| RbRemove.SwapOrder | src/map.c:810-863 | putting the successor in the place of the node keeps the search order |
| RbMap.Unlink | src/map.c:956-1000 | taking a found node out and repairing leaves a red-black tree of exactly the other nodes |
| RbMap.RbTree.Del | src/map.c:932-1004 | the finite map loses exactly the binding and its value is returned; items drops by one; all tree invariants kept |
| RbMap.Descend | src/map.c:695-713 | the descent ends at the key's node or at the place where it belongs, with path[] and dir[] spelling the way and room for every later index |
| RbMap.Miss | src/map.c:474-488 | a descent that ends at a null pointer proves that the key is nowhere in the tree |
| RbKeys.FlatSorted | src/map.c:1036-1047 | the nodes from left to right have strictly increasing keys |
| RbKeys.KeysValues | src/map.c:1036-1075 | the array is filled exactly, in increasing key order, with all bindings and nothing else |
| RbTravTheory.SuccLeast | src/map.c:1173-1215 | the successor found by descent is the least node after a key, or none exists |
| RbTravTheory.FirstLeast | src/map.c:1217-1260 | the leftmost node has the least key |
| RbTravTheory.SuccVia | src/map.c:1195-1214 | along a path that omits right turns the successor is below the node or at the last left turn |
| RbTravTheory.OnPathGrown | src/map.c:1318-1332 | a recorded path is still one after insertions without a new transaction id |
| RbTrav.Next | src/map.c:1173-1215 | with a path recorded earlier: the least node after the current one, and a path to it |
| RbTrav.Rewalk | src/map.c:1217-1316 | rebuilds the path from the checkpoint: the least node after it even if it has been deleted |
| RbTrav.Traverser.Traverse | src/map.c:1318-1332 | returns the least key after the last key returned, or NULL if there is none, whatever changed in between |
| RbSession.Run | src/map.c:1318-1332 | any script of additions, with node allocation failing or not, deletions and traversals, of any length, yields a log that a finite map and a cursor accept step by step, as long as the map stays below 2^24 - 1 keys and the transaction id does not come round between two looks at it |
| RbSession.Increasing | src/map.c:1318-1332 | keys returned before the first NULL strictly increase |
| RbSession.VisitsAll | src/map.c:1318-1332 | a key present and never deleted is returned before NULL |
| HashList.AddTail | include/libHX/list.h:46-50 | the list gains the entry at its end and all links stay consistent |
| HashList.Delete | include/libHX/list.h:52-64 | the list loses exactly the entry, whose own links are cleared |
| HashTable.PlacedRemove | src/map.c:289-311 | removing a node from its bucket keeps every other node in the bucket its key hashes to |
| HashTable.Relink | src/map.c:297-309 | one node leaves the old table and joins its bucket in the new one; both tables stay well formed |
| HashTable.MoveBucket | src/map.c:297-310 | one bucket is emptied, node by node, with the successor fetched before each move |
| HashTable.Move | src/map.c:289-311 | every node is relinked exactly once into the bucket its key hashes to |
| HashLoad.FracExact | src/map.c:277-281 | x_frac is floor(v*n/d), with no 32-bit wrap, for n <= d <= 65536 |
| HashLoad.FracExactly | src/map.c:269-281 | x_frac(n, d, v) is floor(v*n/d) for all n <= d and all 32-bit v exactly when d is at most 65536; the comment promises it for every d |
| HashLoad.FracWraps | src/map.c:269-281 | for every larger d the product of the remainder wraps for n = d and v = d - 1, and the result is too small |
| HashLoad.Limits | src/map.c:48-53 | how the load limits of neighbouring table sizes lie |
| HashLoad.Sizes | src/map.c:48-53 | the table sizes double: each lies close to 3 * 2^n and has no small factor |
| HashLoad.LoadLimits | src/map.c:339-341 | the load limits are seven tenths and a quarter of the size, rounded down, and none below for the smallest |
| HashLoad.GrowPaid | src/map.c:339-341 | the credit saved at the upper limit pays for moving every node |
| HashLoad.ShrinkPaid | src/map.c:339-341 | the credit saved below the lower limit pays for moving every node |
| HashStore.Lookup | src/map.c:454-472 | finds the node of a key, and nothing exactly when the map has no such key |
| HashStore.Attach | src/map.c:563-580 | a new node at the end of its bucket adds exactly its binding |
| HashStore.Detach | src/map.c:790 | unlinking a node removes exactly its binding |
| HashStore.Rebuild | src/map.c:318-345 | the new bucket array has all nodes, each moved once, and the same mapping |
| HashMap.Umap.Layout | src/map.c:318-345 | all or nothing: the table of the new size with its limits and a new transaction id, or no change when the array cannot be allocated |
| HashMap.NewMap | src/map.c:347-369 | an empty map of the smallest size |
| HashMap.FailedNewMap | src/map.c:366-377 | when the bucket array cannot be allocated, the clean-up goes through 23 buckets of an array that does not exist |
| HashMap.Umap.Find | src/map.c:454-472 | agrees with the finite map |
| HashMap.Umap.Replace | src/map.c:526-542 | replaces one value, or -EEXIST under NOREPLACE |
| HashMap.Umap.Add | src/map.c:544-590 | agrees with the finite map with either allocation failing; exactly when it fails; keeps the load limits and the cost bound; says how the buckets change |
| HashMap.Umap.Del | src/map.c:780-808 | agrees with the finite map; a failed shrink is ignored; keeps the load limits and the cost bound |
| HashTrav.Seek | src/map.c:1145-1150 | stops at the next place in bucket order that has a node |
| HashTrav.Arrive | src/map.c:1125-1154 | the node reached has been neither returned nor missed before, and what is known of the keys returned, missed and still to come holds for it |
| HashTrav.Finish | src/map.c:1147-1149 | at the end, without a relayout, every key of the beginning that was never deleted has been returned or missed |
| HashTrav.Traverser.Leave | src/map.c:1129-1144 | the three ways on: the first head, the end of the current bucket after a change of tid, the next link |
| HashTrav.Traverser.Traverse | src/map.c:1125-1154 | returns a node that is in the map now; without a relayout never a key twice, and at NULL every key present from the beginning and never deleted has been returned, except exactly those that waited in the current bucket when a stale tid was noticed |
| HashSession.TrackAdd | src/map.c:578-580 | an addition without a relayout does not move the traverser's place |
| HashSession.TrackLate | src/map.c:790-792 | after a deletion without a relayout, what has been returned stays behind and every other key stays ahead or in the current bucket |
| HashSession.Run | src/map.c:544-590 | any script with any allocation failing agrees with a finite map, keeps the load limits, costs at most four moves an operation; without a relayout it returns no key twice, passes by exactly the keys that script and log say, and at NULL has returned exactly the other undeleted keys of the beginning; without deletions only a relayout changes the transaction id |
| HashWalk.ShownIs | src/map.c:1153 | the keys a run is credited with are exactly those its log shows |
| HashWalk.NothingMissed | src/map.c:1132-1144 | a run in which no deletion finds its key passes by nothing |
| HashWalk.MissedWhere | src/map.c:1132-1144 | a key passed by was not yet returned and shares its bucket with one that was, and a deletion had found its key before |
| HashWalk.Walk | src/map.c:1125-1154 | a traversal from its start to NULL without a relayout: an undeleted key of the beginning is in the log exactly when script and log do not pass it by; every one is when no deletion finds its key, and all keys are when the script has no deletion |
| HashWalk.SkippedKey | src/map.c:1132-1144 | of any two keys that share one of the 23 buckets of a new map, deleting the first one returned makes the traverser end without the other, which stays in the map |
| HashSession.OnceDistinct | src/map.c:1125-1154 | two traversal results of a log without a relayout differ |
| Getopt.FindShort | src/opt.c:262-269 | the first table entry with the letter |
| Getopt.FindLong | src/opt.c:271-290 | the prefix lookup of the grammar |
| Getopt.StepTwoLong | src/opt.c:519-550 | the state and the option found carry out what the grammar says of --name |
| Getopt.StepLong | src/opt.c:552-610 | the same for --name=value, with the option logged at once |
| Getopt.StepShort | src/opt.c:612-653 | the same for one letter of a cluster |
| Getopt.StepNormal | src/opt.c:662-685 | classifies a word as the grammar does, whatever follows it |
| Getopt.Turn | src/opt.c:735-765 | one turn of the loop, with its flags obeyed, keeps what has been logged and what is to come equal to the meaning of the vector |
| Getopt.Loop | src/opt.c:735-774 | ends on every vector, with exactly the options, arguments, operands and error code of the grammar |
| Getopt.Getopt6 | src/opt.c:699-774 | the same behind the program name, with the order by flags and environment; both -EINVAL exits, with nothing parsed |
| GetoptLaws.OperandsInOrder | src/opt.c:655-685 | operands are words of the vector in their order; every option has one argument slot |
| GetoptLaws.Context | src/opt.c:735-774 | behind a prefix that is used up exactly, the rest means what it means alone |
| GetoptLaws.Terminated | src/opt.c:655-660 | after "--" every word is an operand as it stands, in any context |
| GetoptLaws.Bundled | src/opt.c:624-628 | -ab means -a -b in any context exactly when a takes no argument or is unknown |
| GetoptLaws.AttachedShort | src/opt.c:629-652 | -Avalue means -A value in any context exactly when the option would take the value from the next word |
| GetoptLaws.AttachedLong | src/opt.c:519-610 | --name=value means --name value in any context exactly when the name is not found or the option would take the value from the next word |
| GetoptLaws.ExactName | src/opt.c:277-288 | an exact long name is found exactly when fewer than two earlier entries have it as a proper prefix |
| GetoptLaws.Abbreviation | src/opt.c:277-289 | a name that is no exact one is found exactly when one entry has it as a prefix |
| GetoptWords.Types | src/opt.c:301-306 | options without an argument are those of the types 0, 1, 2, 29 and 30; 64 is the flag of an optional argument |
| GetoptWords.OperandMeans | src/opt.c:662-685 | in any context an operand is taken and parsing goes on, or, with order required, ends the options; "-" and the empty word are operands, and "-" ends nothing |
| GetoptWords.VoidMeans | src/opt.c:529-531 | in any context -a or --name of an option without argument is that option |
| GetoptWords.ArgumentMeans | src/opt.c:544-549 | an option with argument takes the next word, whatever it is; without one it is error 3 |
| GetoptWords.OptionalMeans | src/opt.c:532-543 | an option with optional argument takes the next word unless that looks like an option |
| GetoptWords.UnknownMeans | src/opt.c:526-527 | an unknown letter or name is error 1, and nothing behind it is looked at |
| GetoptWords.AttachedMeans | src/opt.c:629-632 | the letters behind one that takes an argument are its argument |
| GetoptWords.EqualsMeans | src/opt.c:552-610 | --name=value by what is found under the name: the option with the value, or error 2, 1 or 4 |
| GetoptWords.AmbiguousMeans | src/opt.c:524-525 | an abbreviation of several names is error 4 |
| GetoptWords.FlagBits | include/libHX/option.h:152-161 | which flag values are refused, as numbers |
| GetoptWords.Ordered | src/opt.c:699-774 | HX_getopt6 on an operand behind any options: by flags 0x20 and 0x80 and the environment, the rest is operands or is parsed; -22 for the flags that are refused |
| DequoteLaws.UnquoteQuoted | src/opt.c:381-416 | between quotes of either kind every character stands for itself once that quote and backslashes are masked, stop characters included |
| DequoteLaws.UnquoteEscape | src/opt.c:390-412 | a backslash keeps the character after it, inside quotes and outside |
| DequoteLaws.UnquoteTrailing | src/opt.c:390-396 | a backslash at the end is dropped |
| Dequote.UnquoteFits | src/opt.c:381-416 | unquoted text never outgrows the text read, and the rest is its tail |
| Dequote.Copy | src/opt.c:381-416 | a character moved back in the buffer keeps the reader ahead of the writer |
| Dequote.DequoteInt | src/opt.c:381-416 | the in-place unquoter computes the out-of-place one; the text behind the terminator and outside the string is untouched |
| Format.DequoteFmt | src/opt.c:432-483 | stops at the first stop character outside quotes and parentheses and returns the text up to there, unquoted; asks only that the scanner does not stand still |
| Format.Aprintf | src/format.c:630-677 | computes the expansion of every template, quotes and escapes included, on which the code does not run out of its string or stand still; the recursion ends since nested templates are shorter |
| Format.Xany | src/format.c:528-591 | computes the value of one reference, the blank shortcut included, and leaves the cursor behind it |
| Format.Xcall | src/format.c:373-442 | the same for a function call |
| Format.Gathering | src/format.c:387-410 | gathers the arguments, unquoted, expanding those that have references, and fails if one does |
| FormatSpec.ScanStops | src/opt.c:440-470 | the scanner stops only at a stop character or at the end, and stands still only on a text that ends in a backslash |
| FormatScan.ScanQuoted | src/opt.c:443-480 | quoted text is skipped as a whole, at any nesting level, whatever stop characters and parentheses are in it |
| FormatScan.ScanEscape | src/opt.c:447-450 | an escaped character is skipped, inside quotes and outside |
| FormatScan.QuotedText | src/opt.c:432-483 | a text in quotes of either kind is skipped as a whole and unquoted to itself |
| FormatTree.UnquotePrint | src/opt.c:381-416 | unquoting the name or an argument of a reference takes away exactly its quotes and escapes |
| FormatTree.ScanOver | src/opt.c:440-470 | the scanner passes over a printed template, quoted texts, balanced parentheses and nested references included |
| FormatTree.ExpandOver | src/format.c:630-677 | expanding a printed template in front of any text is evaluating its tree and then expanding the text |
| FormatTree.ExpandPrint | src/format.c:630-677 | expanding a printed template is evaluating its tree: literals with parentheses, "%c" pairs, groups, quoted and escaped texts, variables and calls, failure of an empty variable name included; what stands in quotes is any template |
| FormatTree.GatherPrint | src/format.c:387-410 | gathering printed arguments evaluates them one by one |
| FormatLaws.AprintfPrint | src/format.c:630-677 | every printed tree is a template the code expands without leaving its string, and the outcome is the value of the tree |
| FormatLaws.CopiedExactly | src/format.c:639-651 | a template without references is copied as it stands, and leads past the terminator exactly when it ends in an odd number of percent signs |
| FormatLaws.ScanUnstopped | src/opt.c:440-470 | without quotes and stop characters the scanner comes to the end at any nesting level, and stands still exactly when an odd number of backslashes is there |
| FormatLaws.StandsStill | src/opt.c:447-450 | an unquoted reference that does not end holds the expander for ever exactly when it ends in an odd number of backslashes, and is an error otherwise |
| FormatLaws.BlankUnclosed | src/format.c:541-547 | a blank after the opening parenthesis, without quotes and a closing parenthesis behind it, leads out of the string or holds the scanner |
| FormatLaws.BlankClosed | src/format.c:541-547 | with a closing parenthesis the reference is nothing and the text behind it is expanded |
| FormatTame.TameExpands | src/format.c:630-677 | a template that passes a test on its characters alone is expanded or refused by the code without leaving its string or standing still |
| FormatWords.VariableMeans | src/format.c:564-575 | %(k) is the value of the variable, or nothing for an unknown one |
| FormatWords.EmptyMeans | src/format.c:534-540 | %() is nothing |
| FormatWords.EmptyNameMeans | src/format.c:564-568 | %('') and %("") are errors |
| FormatWords.CallMeans | src/format.c:373-442 | %(fn a,b): the function gets the arguments in their order, with blanks before them skipped and with those separators, comma or space, that the function has |
| FormatWords.BareCallMeans | src/format.c:385-386 | a call with nothing but blanks behind the name has no arguments |
| FormatWords.UnknownMeans | src/format.c:418-424 | an unknown function is nothing |
| FormatWords.UnclosedMeans | src/format.c:404-405 | a call without its closing parenthesis ends with the text |
| FormatWords.QuotedMeans | src/format.c:387-410 | an argument in quotes of either kind is one argument, whatever separators, blanks and parentheses are in it |
| FormatLaws.CaseOf | src/format.c:220-230 | the two cases of a letter have the same place in their alphabets, and nothing else has a case |
| FormatLaws.IfChooses | src/format.c:204-218 | %(if c,a,b) is a or b by whether c expands to something |
| FormatLaws.CaseChanges | src/format.c:220-230 | lower of upper of x is lower of x, through nested templates |
| RealpathSpec.ResolveClean | src/io.c:510-603 | whatever the links, success means no empty, "." or ".." part and no leading part that is a link |
| RealpathSpec.Resolve | src/io.c:418-466 | at most the budget of links is followed; resolution ends for cyclic tables too |
| RealpathSpec.ResolveSelf | src/io.c:510-603 | a clean path resolves to itself without following a link |
| RealpathSpec.ResolveFront | src/io.c:550-581 | resolving a path is resolving its front and then the rest from there |
| RealpathSpec.BudgetEnough | src/io.c:418-440 | a larger budget changes no success |
| Realpath.State.Strip | src/io.c:446-451 | going back to the last slash removes exactly the last part |
| Realpath.Symres | src/io.c:418-466 | a link's target is put before the rest of the path, absolute or relative; the 41st link is ELOOP |
| Realpath.RealPath | src/io.c:510-603 | the string-rewriting loop ends and computes the component-wise resolution |
| Realpath.Canonical | src/io.c:510-603 | the result is clean, at most 40 links were followed, and resolving the result gives the result |
| Realpath.FrontReplaced | src/io.c:550-581 | putting the resolved front in place of a path's front changes only the number of links followed |
| Realpath.SelfLoop | src/io.c:432-440 | a link to itself, in any directory and before any rest of a path, is ELOOP for every budget |
| Realpath.SelfLoopFromRoot | src/io.c:432-440 | the same for a link that names itself by its absolute path |
| RealpathLaws.CompsSplit | src/io.c:550-581 | slashes separate the parts of a path, any number of them as one |
| RealpathLaws.Lexical | src/io.c:550-581 | without links a path is cleaned by its text alone, as by reading it from its end; ".." does not leave the root |
| RealpathLaws.Chained | src/io.c:418-466 | a chain of links in a resolved directory, by names or absolute paths, ends at its last name if it is no longer than the budget, and with ELOOP otherwise |
| RealpathLaws.FollowChain | src/io.c:432-440 | HX_realpath follows chains of up to 40 links to their end and returns -40 for longer ones |
| RealpathLaws.Broken | src/io.c:424-431 | what cannot be looked at is that error, whatever follows it |
| ShConfig.Chomp | src/string.c:120-129 | removes exactly the line ends at the end |
| ShConfig.ShconfBreak | src/opt.c:935-963 | the in-place loop calls back with exactly the pairs of the line |
| ShConfig.UnquoteEscaped | src/opt.c:381-416 | inside double quotes the unquoter undoes HX_strquote and goes on behind the quote |
| ShConfig.RoundTrip | src/opt.c:935-963 | pairs printed as key="value" or key=value with any separators between them are called back, but for carriage returns at the end of a bare last value; exactly as printed unless there are such |
| ShConfig.EscapedMasked | src/string.c:509-512 | HX_strquote in double quotes masks exactly what the unquoter needs masked |
| ShConfig.BreakNext | src/opt.c:958-962 | a value, quoted or bare, ends at a tab, newline, space or semicolon outside quotes and nowhere else, and reading goes on behind it |
| ShConfig.BreakSkips | src/opt.c:941-943 | blanks and semicolons before a name are skipped |
| ShConfig.BreakEnds | src/opt.c:944-955 | reading ends at a comment, at anything else that is no name, and at a name without '=' |
| QuoteSpec.QuotedBack | src/string.c:563-724 | every quoting type is undone by its decoder, for every byte string |
| QuoteSpec.EncodedBack | src/string.c:589-624 | Base64 decoding, section 4 of RFC 4648, inverts the encoder for all three alphabets |
| QuoteSpec.EscapedBack | src/string.c:563-724 | the escapes are undone: backslash, HTML entities, hex after section 2.1 of RFC 3986 and section 3 of RFC 4515 |
| Quote.QuotedSize | src/string.c:529-561 | the computed size is exactly the length of the quoted text, for every type |
| Quote.WriteEscaped | src/string.c:563-583 | the writer fills the buffer of that size exactly, terminator included |
| Quote.WriteBase64 | src/string.c:589-624 | the same for Base64; the masks and shifts are the base-64 digits of the groups |
| Quote.StrQuote | src/string.c:755-818 | returns the quoted text, also when nothing needs quoting |
| QuoteLaws.UnsafeExactly | src/string.c:509-516 | which characters each quoting type escapes, by their codes |
| QuoteLaws.Untouched | src/string.c:755-818 | a text stays as it is exactly when it has none of them |
| QuoteLaws.Protected | src/string.c:563-724 | in HTML, LDAP and URI texts none of them is left but those that begin the escapes |
| QuoteLaws.HexMeans | src/string.c:563-583 | two hexadecimal digits in upper case |
| QuoteLaws.Entities | src/string.c:650-690 | the entities for quote, ampersand and angle brackets |
| QuoteLaws.Alphabet | src/string.c:589-624 | the three Base64 alphabets, by character codes |
| QuoteLaws.Vectors | src/string.c:589-624 | test vectors of section 10 of RFC 4648 |
| DurationSpec.AddedIs | src/string.c:1148-1168 | the overflow guards turn away exactly the sums that do not fit in 64 bits |
| DurationUnits.Listed | src/string.c:1019-1046 | every spelling of a unit is in the table with its length in seconds: 1, 60, 3600, 86400, 604800, 2629800, 31557600, or 0 below a second |
| DurationUnits.FirstNamed | src/string.c:1123-1128 | a name of the table in any letter case is recognised as itself, as a whole word |
| DurationUnits.FirstNone | src/string.c:1123-1128 | a word that is no spelling is not taken for a unit |
| DurationLaws.UnitMeans | src/string.c:1100-1175 | a number and a unit, with plus sign and blanks allowed, adds its seconds, or is an error that points at the number when the sum exceeds 64 bits |
| DurationLaws.NoUnitMeans | src/string.c:1129-1136 | zero needs no unit; any other number whose word is no unit ends the reading before it |
| DurationLaws.TooLarge | src/string.c:1110-1112 | a number beyond 64 bits is an error; the largest one is taken for that when errno is stale |
| DurationLaws.NoNumberMeans | src/string.c:1108-1119 | reading ends before a minus sign and before anything that is no number |
| DurationLaws.SplitExactly | src/string.c:1300-1321 | the fields are exactly those that add up to the duration with none as large as the next longer unit in use |
| DurationLaws.PrintedIs | src/string.c:1322-1359 | the text is that of the fields that are not zero, with "month" and "week" in singular for one, and "0s" if all are |
| DurationSpec.PeriodText | src/string.c:1100-1175 | a run of numbers with units is read as their sum and used up |
| Duration.SplitTotal | src/string.c:1300-1321 | the fields of a duration add up to it, for every choice of flags |
| Duration.PrintedFits | include/libHX/defs.h:98 | the printed text has at most 40 characters |
| Duration.UnitSeconds | src/string.c:1300-1359 | prints the text, or as much of it as fills the buffer; 41 characters are always enough |
| Duration.StrtoullPeriod | src/string.c:1100-1175 | the parsing loop computes the reading of every text without a decimal point |
| Duration.RoundTrip | src/string.c:1273-1359 | reading what was printed gives the number back and uses the text up, for every 64-bit value and choice of flags; the text has no decimal point and is not taken for ISO 8601 |
| Duration.ThereAndBack | src/string.c:1273-1359 | printing into 41 bytes or more and parsing, by the loops of the code, gives the number back |
| UnitSize.P90Is | src/string.c:848-852 | p_90(x) is floor(9x/10) |
| UnitSize.Divide | src/string.c:864-869 | the loop stops at the size's unit; orig = size*gpow + rem with rem < gpow; the last remainder is that of the unit below; gpow never overflows |
| UnitSize.UnitSizeCu | src/string.c:854-899 | the figure is the size by its unit, rounded as specified, for every size and unsigned divisor, 0 standing for 1000 |
| UnitSize.FigureBounds | src/string.c:870-893 | for multiples of ten up to 477218588 the figure times its unit is the size for multiples of the unit, otherwise above it, by at most a tenth of the unit under ten units, by less than a unit otherwise, carry included |
| UnitSize.FigureNear | src/string.c:864-897 | for every divisor up to 429496729, 1024 among them: the figure is less than nine of the next smaller units, in tenths, too low, never too low from ten units on, and no more too high than a tenth below ten units, a unit above; the whole part stays below the divisor |
| UnitSize.LargestUnit | src/string.c:864-869 | the unit is the largest power of the divisor, up to the eleventh, that the size reaches |
| UnitSize.LetterShown | src/string.c:859-867 | from a divisor of 60 on no 64-bit size reaches the unit that has no letter |
| UnitSize.NeverLowExactly | src/string.c:859-897 | no 64-bit size is printed as a value that is too small exactly when the divisor is 1 or a multiple of ten from 60 to 477218588 |
| UnitSize.LowByLetter | src/string.c:859-867 | for a divisor from 2 to 50 the eleventh power is printed as "1.0" without a letter |
| UnitSize.LowByLetterTen | src/string.c:859-897 | ten to the eleventh with divisor ten is printed as "1.0" |
| UnitSize.LowByOverflow | src/string.c:878-880 | above 477218588 the tenths of the last remainder overflow, and one size is printed too small |
| UnitSize.LowByTenths | src/string.c:874-889 | for a divisor that is no multiple of ten one size is printed too small, since the tenths come from the last remainder only |
| UnitSize.Carried | src/string.c:888-892 | the carry into the next unit leaves the figure times its unit as it is |
| Timespec.OfNanos | src/time.c:47-50 | the quotient and remainder form a canonical time of the same value |
| Timespec.Unique | src/time.c:22-51 | a canonical time is determined by its signed nanoseconds |
| Timespec.IsNeg | src/time.c:22-25 | holds exactly for negative values |
| Timespec.Neg | src/time.c:27-38 | the canonical negative, also when written over the operand |
| Timespec.Add | src/time.c:40-51 | the canonical sum, whichever operands the result is written over; no intermediate leaves the 64-bit range |
| Timespec.Sub | src/time.c:53-58 | the canonical difference, whichever operands the result is written over |
| Timespec.Mul | src/time.c:60-73 | the canonical product with an integer; no intermediate leaves the 64-bit range |
| Timespec.TimevalSub | src/time.c:95-107 | the exact difference in microseconds |
| Timespec.Algebra | src/time.c:27-58 | addition commutes and associates, subtracting what was added gives the first operand back field by field, and negation is an involution |

## Left out

- Key and data cloning and freeing, and the clean-up after a failed clone in both maps: keys and data are values.
- HXmap_qfe, HXmap_free, the dispatching wrappers and the hash map's keysvalues: no state of their own.
- HXMAP_DTRAV: the checkpoint is a plain key.
- RbRemove.SpliceDeep: the order of the single pointer writes in the successor splice differs from the code where that cannot be seen from outside.
- RbKeys.KeysValues: an empty tree is excluded, as the code dereferences the root.
- RbTrav.Traverser.Traverse: assumes fewer than 2^32 transaction ids between two calls, since the counter is compared modulo 2^32.
- HashTrav.Traverser.Traverse: assumes the same, and is not called again after NULL.
- HashMap.Umap.Layout: the memory of the old bucket array is not modelled beyond its being left.
- The power-of-two bucket variant (NONPRIME_HASH) and the hash functions themselves.
- Getopt.Vars.Assign: type conversions, assignments through pointers and callbacks are replaced by the log of options and arguments.
- Getopt.Getopt6: allocation failures, the copying of the deques into the result, help and usage output, and counting a NULL-terminated vector for a negative argc.
- The option table is given without its end marker.
- Format.Aprintf: what the code does on a template with the outcome `Wild`.
- FormatTree.ExpandPrint: trees have no quotes, escapes and parentheses in function names, and no quotes of their own in a reference inside an unquoted argument; the string specification has both.
- Format.Xcall: the functions env, exec, shell, snl, substr and echo are arbitrary functions of their arguments; variables are strings, so HXformat2_xvar's conversions are not modelled.
- Failure of the expander is one value; the errno behind it is not modelled.
- Realpath.RealPath: relative paths, a buffer that is not empty and calls without all three flags.
- Dequote.DequoteInt: a buffer holds one string; wide characters are not modelled.
- Reading lines from files and the tables that HX_shconfig fills.
- Quote.StrQuote: the variant that returns the caller's string or reuses a buffer.
- Duration.StrtoullPeriod: decimal fractions (floating point) and the ISO 8601 form.
- UnitSize.UnitSizeCu: the formatting of the figure as text.
- Timespec.Mul: the variant with a floating-point factor.
- Timespec.Add: values outside the range of a 64-bit count of nanoseconds.
- Processes, sockets, directories, file copying, memory containers and deques: system calls or containers used as plain sequences here.
