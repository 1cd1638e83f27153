# Course catalog: binary search tree, line parser and prerequisite check

This project models the core of a course-advising program written in C++
(`CS300FinalProject/CS300FinalProject.cpp`). Courses are read from
comma-separated lines. They are stored in an unbalanced binary search tree
keyed by course id. Courses whose prerequisites are not in the catalog are
then evicted. The model has six modules:

- `Lex` (lex.dfy): `std::string` ordering as the tree compares ids. It is
  lexicographic by character, and a proper prefix comes first.
- `Tokenizer` (tokenizer.dfy): `Tokenizer::tokenize`, the delimiter
  splitter. `Split` is its specification, `Tokenize` its loop.
- `Courses` (courses.dfy): the `Course` record and `Node::toString`.
  `Text` is the text as a value, `ToString` the source's string-building
  loop.
- `TreeShape` (tree_shape.dfy): the nodes live in an arena of records
  (`NodeRec`: course, left, right, parent; -1 is the null pointer). A ghost
  `Tree` of handles names the tree the child links describe. This module
  holds what add and remove do to the arena and to the shape, with the
  lemmas about them.
- `CourseTree` (bstree.dfy): class `BSTree`. `Add`, `Remove`,
  `SuccessorNode` (getSuccessorNode), `UpdateParent`, `GetDetails` and
  `GetSize` are methods over the arena. `PrintPreorder`/`Print` return the
  lines the in-order walk prints.
- `Parsing` (file_parser.dfy): `toCourse` (`ParseCourse` as a value,
  `ToCourse` as the loop) and class `FileParser` with its queue
  `coursesToValidate`. `LoadCourses` is the loop of `readFile` over lines
  already read, `ValidateCourses` is the prerequisite pass, and `ReadFile`
  runs one after the other.

The program's quirks are modelled as written:
- `add` on an empty tree returns at line 270, before the `size++` that the
  comment at line 301 says updates the size. So after n >= 1 adds,
  `getSize()` is n - 1 (`SizeLags`).
- `remove` never updates `root`.
- When the removed node has two children, the successor takes the left
  child, and the right child too unless it is that child (line 328). The
  left child's parent field keeps naming the removed node
  (`TwoChildStaleParent`). When the successor sits deeper than the right
  child, so does the right child's (`DeepSuccessorStaleRight`), and the
  successor stays linked from its old parent, which creates a cycle
  (`DeepSuccessorLeavesCycle`).
- `validateCourses` pops the queue once per prerequisite it looks at,
  whichever node is in front. With several prerequisites per node, queued
  nodes are skipped (`SkipBehindKept`). A `front`/`pop` on an empty queue
  is undefined behaviour in C++. Here it is an `overrun` flag that ends the
  pass.
- Evicting the root leaves `root` naming the deleted node, and evicting a
  node with two children leaves a parent field naming it, and a cycle
  when its successor sits deeper than its right child. The model performs
  such a removal as written and then ends the pass with the `unsafe` flag.

## Model

| member | source | states |
|---|---|---|
| Lex.LexLe | CS300FinalProject/CS300FinalProject.cpp:276-286 | an id compares `<=` to itself, so a duplicate id takes the left branch |
| Lex.Less | CS300FinalProject/CS300FinalProject.cpp:353 | `<` holds exactly when `<=` holds and the ids differ |
| Lex.LePrefix | CS300FinalProject/CS300FinalProject.cpp:276-286 | a prefix of an id orders at or before it, as `std::string` comparison does |
| Lex.LeTotal | CS300FinalProject/CS300FinalProject.cpp:276-286 | any two ids compare one way or the other, so the four branches of add's walk cover all cases |
| Lex.LeAntisym | CS300FinalProject/CS300FinalProject.cpp:276-286 | ids that are `<=` each other are equal |
| Lex.LeTrans | CS300FinalProject/CS300FinalProject.cpp:276-286 | `<=` on ids is transitive |
| Lex.LessLe | CS300FinalProject/CS300FinalProject.cpp:353 | `<` on ids implies `<=` |
| Tokenizer.Split | CS300FinalProject/CS300FinalProject.cpp:28-51 | the token list always has at least one token, because the last word is always pushed |
| Tokenizer.Tokenize | CS300FinalProject/CS300FinalProject.cpp:28-51 | the loop's tokens are `Split(s, d)`, and the empty string gives `[""]` |
| Tokenizer.SplitCount | CS300FinalProject/CS300FinalProject.cpp:28-51 | there is exactly one more token than the input has delimiters |
| Tokenizer.SplitNoDelimiter | CS300FinalProject/CS300FinalProject.cpp:38-46 | no token contains the delimiter |
| Tokenizer.JoinSplit | CS300FinalProject/CS300FinalProject.cpp:28-51 | joining the tokens with the delimiter gives back the input |
| Tokenizer.SplitJoin | CS300FinalProject/CS300FinalProject.cpp:28-51 | splitting joined tokens that contain no delimiter gives them back |
| Tokenizer.SplitConcat | CS300FinalProject/CS300FinalProject.cpp:43-46 | a delimiter separates the tokens of what precedes it from the tokens of what follows it |
| Tokenizer.SplitWord | CS300FinalProject/CS300FinalProject.cpp:38-40 | a string without the delimiter is one token |
| Tokenizer.JoinFront | CS300FinalProject/CS300FinalProject.cpp:43-46 | the first token is what precedes the first delimiter |
| Courses.NatToString | CS300FinalProject/CS300FinalProject.cpp:114 | the count is written with decimal digits and no leading zero |
| Courses.DecimalRoundTrip | CS300FinalProject/CS300FinalProject.cpp:114 | the printed count reads back as the count |
| Courses.Text | CS300FinalProject/CS300FinalProject.cpp:106-136 | the text starts with `id + " " + name + "\n\t"` and ends with a newline |
| Courses.ToString | CS300FinalProject/CS300FinalProject.cpp:106-136 | the loop builds exactly `Text(c)`: title, the singular or plural heading (or the no-prerequisites notice), then one line per prerequisite in order |
| Courses.TextHasTab | CS300FinalProject/CS300FinalProject.cpp:106-136 | a course's text contains a tab, so it never equals getDetails' not-found message |
| Courses.TextLines | CS300FinalProject/CS300FinalProject.cpp:106-136 | split at newlines, the text is the title, the heading, one `"\t\t" + id` line per prerequisite in order, and an empty last line |
| Courses.JoinPrereqLines | CS300FinalProject/CS300FinalProject.cpp:124-126 | the prerequisite lines are the lines after the title and the heading |
| Courses.HeadingNoNewline | CS300FinalProject/CS300FinalProject.cpp:113-122 | the heading line holds no newline |
| Parsing.NonEmpty | CS300FinalProject/CS300FinalProject.cpp:468-474 | the kept fields are non-empty, and they are exactly the non-empty input fields |
| Parsing.NonEmptyAll | CS300FinalProject/CS300FinalProject.cpp:468-474 | with no blank field, every field is kept in order |
| Parsing.ToCourse | CS300FinalProject/CS300FinalProject.cpp:454-477 | the loop gives `ParseCourse(line)`: none for fewer than two fields, otherwise id, name and the non-empty later fields in order |
| Parsing.ParseCourse | CS300FinalProject/CS300FinalProject.cpp:454-477 | a line gives no course exactly when it has no comma; no prerequisite of a parsed course is empty |
| Parsing.ParseCourseFields | CS300FinalProject/CS300FinalProject.cpp:454-477 | an accepted line begins with `id,name` followed by end of line or a comma; no field holds a comma and no prerequisite is empty |
| Parsing.ParseCourseRoundTrip | CS300FinalProject/CS300FinalProject.cpp:454-477 | writing a comma-free course as a line and parsing it gives the course back |
| Parsing.Parsed | CS300FinalProject/CS300FinalProject.cpp:433-437 | the lines give at most one course each |
| Parsing.Load | CS300FinalProject/CS300FinalProject.cpp:433-437 | adding courses in order keeps the child links describing the shape, and adds one node per course |
| Parsing.LoadLoaded | CS300FinalProject/CS300FinalProject.cpp:433-437 | loading keeps the old courses, puts the new courses after them in input order, and makes exactly the new nodes part of the tree |
| Parsing.Queued | CS300FinalProject/CS300FinalProject.cpp:485-486 | a load queues at most one entry per course |
| Parsing.QueuedIds | CS300FinalProject/CS300FinalProject.cpp:483-491 | the queue a load builds lists, in increasing order, exactly the nodes of the courses that have prerequisites |
| Parsing.NextLine | CS300FinalProject/CS300FinalProject.cpp:433-437 | reading one more line, which adds nothing or adds its course and queues it when it has prerequisites, reaches the arena, shape, queue and count of the lines read up to it |
| Parsing.QueueGrows | CS300FinalProject/CS300FinalProject.cpp:483-491 | adding a course keeps a queue valid for the prerequisite pass, with the new node queued when it has prerequisites |
| Parsing.FileParser.constructor | CS300FinalProject/CS300FinalProject.cpp:447-449 | the parser starts with an empty queue on the given tree |
| Parsing.FileParser.AddCourseToTree | CS300FinalProject/CS300FinalProject.cpp:483-491 | the course is added as add does it, and its node is queued exactly when it has prerequisites; the tree is non-empty, the root is kept once set, and the size grows by one unless the tree was empty; a valid queue, parent consistency and the lagging count are kept |
| Parsing.FileParser.ReadLine | CS300FinalProject/CS300FinalProject.cpp:433-437 | a rejected line changes nothing, size and root included; an accepted one is added as `AddCourseToTree` states and queued when it has prerequisites; validity, a valid queue, parent consistency and the lagging count are kept |
| Parsing.FileParser.ReadLines | CS300FinalProject/CS300FinalProject.cpp:433-437 | the loop over all the lines takes the record of no lines read (`Loading`) to that of every line read |
| Parsing.FileParser.ReadNext | CS300FinalProject/CS300FinalProject.cpp:433-437 | one pass of the loop keeps the record of the lines read (`Loading`) for one more line |
| Parsing.FileParser.LoadCourses | CS300FinalProject/CS300FinalProject.cpp:432-438 | after the loop, the tree is the old tree with every parsed course added in order (`Load`); the queue gained the new nodes that have prerequisites, in order; the size grew by the number of courses, less one when the tree was empty; a valid queue, parent consistency and the lagging count are kept |
| Parsing.FileParser.CheckPrerequisites | CS300FinalProject/CS300FinalProject.cpp:502-510 | one pop per prerequisite looked at, never more than the node has; on a miss, the missing id is the last one looked at and every earlier id was found; with no miss and no overrun every id was looked at and found; an overrun empties the queue after finding every id looked at |
| Parsing.SafeQueueSuffix | CS300FinalProject/CS300FinalProject.cpp:504 | popping keeps the queue safe to validate, and the popped front is not queued again |
| Parsing.RemovalKeepsSafeQueue | CS300FinalProject/CS300FinalProject.cpp:507 | evicting a node with at most one child that is not queued again keeps the remaining queue valid, and the removal is one remove handles |
| Parsing.EvictionStep | CS300FinalProject/CS300FinalProject.cpp:506-508 | an eviction keeps the courses, drops exactly that node from the listing, records the missing id as the reason, and keeps every examined node that missed a prerequisite at the start among the evicted |
| Parsing.KeepStep | CS300FinalProject/CS300FinalProject.cpp:502-512 | a node that passes is recorded as examined and nothing else changes; when all its prerequisites were found, every examined node that missed a prerequisite at the start is still among the evicted |
| Parsing.EvictedWitness | CS300FinalProject/CS300FinalProject.cpp:506-508 | each evicted node has a prerequisite that no node of the tree has as its key |
| Parsing.ProgressChecked | CS300FinalProject/CS300FinalProject.cpp:493-515 | the record of a finished pass gives what `Checked` states |
| Parsing.Advance | CS300FinalProject/CS300FinalProject.cpp:497-504 | the queue stays a suffix of the starting queue; with one prerequisite per node, the examined nodes plus the queue are the starting queue |
| Parsing.FileParser.ValidateFront | CS300FinalProject/CS300FinalProject.cpp:498-512 | the front node is checked, popping once per id looked at: all of its ids when it is kept, up to the first missing id when it is evicted; it is evicted exactly when an id is missing; a kept node had all its ids in the tree; an evicted one is removed as written and the size drops by one, and for a node with at most one child other than the root the tree is the old one without it; `unsafe` is set exactly when the evicted node is the root or has two children |
| Parsing.BlocksNext | CS300FinalProject/CS300FinalProject.cpp:497-512 | one turn, which checks the front entry and pops `cut` entries, extends the blocks by that node unless it ended the pass as unsafe, and the queue left is what follows the blocks |
| Parsing.FileParser.ValidateTurn | CS300FinalProject/CS300FinalProject.cpp:497-513 | one turn of the loop keeps the record of the pass (`Passing`), the blocks and the judgements (`Judged`) |
| Parsing.FileParser.ValidateNext | CS300FinalProject/CS300FinalProject.cpp:497-513 | one turn of the loop keeps the record of the pass (`Passing`), and states the front node, the entries popped, and what its check found in the tree at the start of the turn |
| Parsing.LiveKeys | CS300FinalProject/CS300FinalProject.cpp:497-512 | during the pass the tree holds an id exactly when a node of the starting tree that was not evicted before does |
| Parsing.JudgedNext | CS300FinalProject/CS300FinalProject.cpp:497-512 | the check of one more node against the current tree extends the judgements, with its verdict taken against the tree at its turn |
| Parsing.VerdictUnique | CS300FinalProject/CS300FinalProject.cpp:502-509 | two checks of a node against the same tree that look at every prerequisite unless they evict agree on the number of pops and on the verdict |
| Parsing.PrefixAgree | CS300FinalProject/CS300FinalProject.cpp:497-512 | two records of passes over the same queue and tree agree turn by turn |
| Parsing.PassDetermined | CS300FinalProject/CS300FinalProject.cpp:493-515 | a pass that consumed the whole queue without an overrun has its examined nodes, pops and evictions fixed by the queue and the starting tree, so the contract of `ValidateCourses` leaves one outcome |
| Parsing.FileParser.ValidateCourses | CS300FinalProject/CS300FinalProject.cpp:493-515 | the pass terminates; the courses are kept; the listing is the starting one without the evicted nodes; each evicted node was examined, came from the queue and misses a prerequisite; without an overrun every examined node that missed a prerequisite in the starting tree was evicted; unless stopped by `unsafe` the queue is empty, the tree stays a valid search tree with the same root and the size drops by the evictions; with one prerequisite per node every queued node is taken once, in FIFO order; the queue is consumed in blocks (`Blocks`, with counts `cuts`): the i-th examined node is the entry after all earlier blocks, its check popped between 1 and its number of prerequisites, all of them unless it was evicted or the queue ran out; unless stopped every entry is consumed, and when stopped, `stop` is the entry right after the blocks; each examined node was judged against the tree as it stood at its turn, the starting tree without the nodes evicted before it (`Judged`): its check found the prerequisites before the last one it looked at, and it was evicted exactly when that last one was missing |
| Parsing.FileParser.ReadFile | CS300FinalProject/CS300FinalProject.cpp:428-441 | reading the lines and then validating gives everything `ValidateCourses` states, for the arena, shape and queue that `Load`/`Queued` give for the parsed lines: courses kept, evictions checked and caught, the blocks, each node's judgement against the tree at its turn (`Judged`), the FIFO order with one prerequisite each, and the stopped state; the root is that of the loaded shape, and the size is the starting size plus the parsed courses (less one when the tree was empty), minus the evictions |
| Parsing.SkipBehindKept | CS300FinalProject/CS300FinalProject.cpp:497-512 | when the front node has two prerequisites that are both in the tree, it is kept and the pass pops the next entry too, so that node stays in the tree unchecked |
| CourseTree.LinesConcat | CS300FinalProject/CS300FinalProject.cpp:396-409 | left lines, node line, right lines are the lines of left walk + node + right walk |
| CourseTree.LineStartsWithId | CS300FinalProject/CS300FinalProject.cpp:404 | each printed line begins with the course id |
| CourseTree.BSTree.constructor | CS300FinalProject/CS300FinalProject.cpp:386-391 | the tree starts empty with size 0, valid, parent-consistent, and with the size lagging |
| CourseTree.BSTree.Add | CS300FinalProject/CS300FinalProject.cpp:264-304 | the new node becomes the root of an empty tree (size unchanged), or hangs in the first free slot of the `<=`-left/`>`-right walk, with its parent set (size + 1); the tree stays a valid search tree; parent consistency is kept; the in-order walk is the old one with the new handle inserted after all smaller keys and before all keys `>=` it |
| CourseTree.BSTree.SuccessorNode | CS300FinalProject/CS300FinalProject.cpp:162-187 | the loop finds the successor `Successor(shape, n)`; see `TreeShape.SuccessorCorrect` |
| CourseTree.BSTree.UpdateParent | CS300FinalProject/CS300FinalProject.cpp:213-228 | the parent, if any, has the child link that named n replaced by n's successor (left if it named n, else right); nothing else changes |
| CourseTree.BSTree.Remove | CS300FinalProject/CS300FinalProject.cpp:309-337 | the arena is the as-written relinking; root never changes; size drops by one. For a non-root splicable node: the shape is the old one without n, still a valid search tree, and the in-order walk loses exactly n. A sparse non-root node keeps parents consistent. Removing a sparse root changes no child link |
| CourseTree.BSTree.RemoveShape | CS300FinalProject/CS300FinalProject.cpp:309-337 | the shape that remove leaves, with the facts `Remove` promises |
| CourseTree.BSTree.GetDetails | CS300FinalProject/CS300FinalProject.cpp:342-365 | returns the text of the first node with id x on the search path, or exactly `"Course not found\n"`; not-found holds exactly when no node has id x |
| CourseTree.BSTree.PrintPreorder | CS300FinalProject/CS300FinalProject.cpp:396-409 | one line per node of the subtree, in in-order, each the node's text plus a newline |
| CourseTree.BSTree.Print | CS300FinalProject/CS300FinalProject.cpp:370-377 | nothing for an empty tree, otherwise one line per node of the tree in in-order |
| CourseTree.BSTree.PrintSorted | CS300FinalProject/CS300FinalProject.cpp:367-377 | the listing is in ascending id order: line i begins with the i-th id, and ids never decrease |
| CourseTree.BSTree.GetSize | CS300FinalProject/CS300FinalProject.cpp:379-381 | returns the counter, which is one less than the node count when only adds have run |
| TreeShape.InOrderSorted | CS300FinalProject/CS300FinalProject.cpp:396-409 | the in-order walk of a search tree lists keys in non-decreasing order |
| TreeShape.FindFirst | CS300FinalProject/CS300FinalProject.cpp:342-365 | the descent gives null (-1) or a node of the tree whose id is x |
| TreeShape.FindFirstCorrect | CS300FinalProject/CS300FinalProject.cpp:342-365 | on a search tree the descent finds x exactly when some node has key x, and what it finds has key x |
| TreeShape.Attach | CS300FinalProject/CS300FinalProject.cpp:274-298 | the slot the walk fills belongs to a node of the tree |
| TreeShape.Fill | CS300FinalProject/CS300FinalProject.cpp:285-298 | the new record holds the course with the slot's owner as parent, and no other record's course or parent changes |
| TreeShape.Grafted | CS300FinalProject/CS300FinalProject.cpp:264-299 | add appends exactly one record, holding the course, and changes no other course |
| TreeShape.Grow | CS300FinalProject/CS300FinalProject.cpp:264-299 | the grown shape has exactly the old nodes and the new one |
| TreeShape.GrowLinkedAt | CS300FinalProject/CS300FinalProject.cpp:285-298 | filling the slot and appending the node makes the links describe the grown shape |
| TreeShape.GrowHandles | CS300FinalProject/CS300FinalProject.cpp:264-304 | add adds exactly the new handle and keeps the root of a non-empty tree |
| TreeShape.GrowLinked | CS300FinalProject/CS300FinalProject.cpp:264-299 | after add, the child links describe the grown shape |
| TreeShape.GrowValid | CS300FinalProject/CS300FinalProject.cpp:264-299 | add keeps links in the arena, ordered and describing the grown shape, and the root is the old root or the new node |
| TreeShape.GrowOrdered | CS300FinalProject/CS300FinalProject.cpp:276-298 | sending `<=` left and `>` right keeps the search-tree order |
| TreeShape.GrowInOrder | CS300FinalProject/CS300FinalProject.cpp:274-299 | the new walk is the old walk with the new handle at the insertion point: after every smaller key, before every key `>=` it |
| TreeShape.GrowParentsAt | CS300FinalProject/CS300FinalProject.cpp:287-296 | the new node's parent is the node whose slot it filled, and parent links stay consistent |
| TreeShape.SubtreeAt | CS300FinalProject/CS300FinalProject.cpp:162-187 | a node's subtree lies within the tree and has the node at its top |
| TreeShape.LeftMost | CS300FinalProject/CS300FinalProject.cpp:180-185 | following left links ends at a node of the subtree |
| TreeShape.SuccessorOf | CS300FinalProject/CS300FinalProject.cpp:162-187 | the successor is null or lies below the node |
| TreeShape.LeftMostProps | CS300FinalProject/CS300FinalProject.cpp:180-185 | the left-most node has no left child, is first in the walk, and has the smallest key of its subtree |
| TreeShape.SuccessorCorrect | CS300FinalProject/CS300FinalProject.cpp:162-187 | null for a leaf, the only child for one child, and for two children the right subtree's left-most node: no left child, first in that walk, smallest key there |
| TreeShape.Unhook | CS300FinalProject/CS300FinalProject.cpp:213-228 | updateParent writes only the parent's record, and changes no course and no parent field |
| TreeShape.Unlinked | CS300FinalProject/CS300FinalProject.cpp:311-332 | the relinking keeps every record and its course |
| TreeShape.Removed | CS300FinalProject/CS300FinalProject.cpp:309-337 | remove as written keeps every record and its course |
| TreeShape.UnlinkedFrame | CS300FinalProject/CS300FinalProject.cpp:311-332 | remove's relinking writes only the parent's record and the successor's, changes no course, and changes only the successor's parent field |
| TreeShape.UnlinkedParent | CS300FinalProject/CS300FinalProject.cpp:213-228 | the parent's link that named n (the left one if it does) now names the successor |
| TreeShape.UnlinkedTwoChildren | CS300FinalProject/CS300FinalProject.cpp:320-331 | a two-child node's successor that is not its right child takes n's parent and both of n's children |
| TreeShape.UnlinkedInArena | CS300FinalProject/CS300FinalProject.cpp:311-332 | the relinking writes only null links or handles |
| TreeShape.SplicableFromArena | CS300FinalProject/CS300FinalProject.cpp:320-331 | a node with at most one child, or whose right child has no left child, is a removal the relinking handles |
| TreeShape.PrunedInOrder | CS300FinalProject/CS300FinalProject.cpp:309-337 | after such a removal, the walk is the old walk without n |
| TreeShape.PrunedOrdered | CS300FinalProject/CS300FinalProject.cpp:309-337 | such a removal keeps the search-tree order |
| TreeShape.PrunedSize | CS300FinalProject/CS300FinalProject.cpp:335 | such a removal leaves exactly one node fewer, matching `size--` |
| TreeShape.PrunedLinked | CS300FinalProject/CS300FinalProject.cpp:309-337 | for a non-root node, the relinked arena describes the shape without n |
| TreeShape.PrunedParents | CS300FinalProject/CS300FinalProject.cpp:322 | with at most one child removed, the promoted node takes n's parent and parents stay consistent |
| TreeShape.RemovedValid | CS300FinalProject/CS300FinalProject.cpp:309-337 | removing a non-root splicable node leaves a search tree with the same root whose walk is the old one without n, one shorter; a node with at most one child keeps parent links consistent |
| TreeShape.RemovedKeepsSparse | CS300FinalProject/CS300FinalProject.cpp:309-337 | removing a node with at most one child leaves every other such node with at most one child |
| TreeShape.PrunedKeys | CS300FinalProject/CS300FinalProject.cpp:309-337 | a removal that keeps every course adds no key: an id found afterwards was in the tree before |
| TreeShape.RootRemovalKeepsShape | CS300FinalProject/CS300FinalProject.cpp:214-217 | removing a root with at most one child changes no child link, since the root has no parent to relink and root is not updated |
| TreeShape.TwoChildStaleParent | CS300FinalProject/CS300FinalProject.cpp:325-331 | after removing a two-child node, its old left child's parent field still names the removed node |
| TreeShape.DeepSuccessorStaleRight | CS300FinalProject/CS300FinalProject.cpp:320-331 | with a successor deeper than the right child, the old right child's parent field still names the removed node |
| TreeShape.DeepSuccessorLeavesCycle | CS300FinalProject/CS300FinalProject.cpp:325-331 | with a successor deeper than the right child, its old parent still names it as left child, and it takes the removed node's right child, which contains it |
| TreeShape.WithoutTwice | CS300FinalProject/CS300FinalProject.cpp:497-513 | dropping one set of nodes and then another is dropping both |

## Left out

- Console and file I/O are left out: `readFile` opening the CSV file, `getline`, and the `cout` in `printPreorder`. Lines are a parameter of `LoadCourses`, and the print walk returns its lines.
- `readFile` is `ReadFile` on lines already read: `LoadCourses`, then `ValidateCourses`. A fresh parser's queue, and every queue `LoadCourses` builds from a valid one, meets `ValidateCourses`' precondition (`SafeQueue`: distinct nodes of the tree that have prerequisites).
- The menu layer is left out, because it is console dispatch: `Menu`, `AbstractOption` and its subclasses, and `main`.
- The singleton `getInstance` statics are left out. A `FileParser` is built on an explicit `BSTree`.
- `~BSTree` is left out: it loops on `remove(root)`, which never changes `root`. `delete` and other memory release are also left out: a removed node's record stays in the arena, and is unlinked from the tree unless it was the root.
- The `Node` getters and setters are not separate members. They are the record fields of `NodeRec`, read and written in place.
- Parsing.FileParser.ValidateCourses: when it must evict the root or a node with two children, it performs that removal as written and then stops (`unsafe`). The source goes on: after removing the root, `root` names freed memory and any later lookup is undefined behaviour; after a two-child removal whose successor sits deeper than the right child, the links hold a cycle (`DeepSuccessorLeavesCycle`), so later lookups are no longer a tree search; when the successor is the right child itself, the result is still a search tree, but the old left child's parent field names the deleted node (`TwoChildStaleParent`), so a later remove of that child writes through freed memory. A pop on an empty queue, undefined in C++, is modelled as the `overrun` flag that ends the pass.
- Parsing.FileParser.ValidateCourses: states that a node it kept had the prerequisites it looked at in the tree as it stood at its turn (`Judged`), and so in the starting tree (`Caught`), not that the final tree holds them: a later eviction can remove one, as in the source.
- Parsing.FileParser.ValidateCourses: for the node an unsafe eviction stops at, it states only that it misses a prerequisite in the tree at its turn (`Stopped`), not how many entries its check popped. `PassDetermined` covers complete passes; it is not stated for a pass that ends with an overrun.
- CourseTree.BSTree.Remove: states the new shape and validity only for a non-root node that has at most one child, or whose right child has no left child. It also covers a root with at most one child. For other removals it states only the as-written arena (`Removed`), together with the stale-parent and cycle lemmas.
- CourseTree.BSTree.Remove: removing a root with at most one child changes no child link and keeps the shape, so the removed root stays in the modelled tree: `GetDetails` and `Print` still find and print its course, and `SizeLags` no longer holds after `size--`. In the source `root` then names the deleted node, and any later use of the tree is undefined behaviour.
- Parsing.FileParser.ValidateCourses: the size is tracked only as `old(size) - |evicted|`. Its relation to the node count is the one `SizeLags` gives.
- `int` sizes are unbounded: `size` cannot overflow, and `unsigned int index` in `tokenize` is a `nat`.
