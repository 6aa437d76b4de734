# ft_containers in Dafny

This project models the core of ft_containers, a C++98 reimplementation of
`std::set`, `std::vector` and `std::stack`, and proves properties of that model.

- `set<int>` sits on a parent-linked red-black tree engine.
- The tree is reached through a sentinel node whose `parent` slot holds the root.
- `map_iterator` walks the tree by its links alone.
- `vector<int>` is a buffer of `capacity` slots whose first `size` slots hold the elements.
- `stack<int>` delegates to a vector.
- The sequence algorithms of `utils.hpp` (`less`, `lexicographical_compare`,
  `equal`, `distance`) are shared by all three containers.

## Files

| file | module | what it holds |
|---|---|---|
| shape.dfy | TreeShape | the ghost shape of the tree, its in-order listing, and how an arena of link fields realises a shape |
| shape_facts.dfy | ShapeFacts | facts about shapes and subtree replacement |
| rewire.dfy | Rewiring | each pointer rewiring of the engine proved to realise a rewritten shape |
| erase_facts.dfy | EraseFacts | which node each erase path cuts out, and where it sits in the listing |
| tree.dfy | RedBlack | class `Tree`, the engine of tree.hpp, on an arena of nodes |
| iterator.dfy | Iterators | `map_iterator`, `vector_iterator`, `reverse_iterator` |
| set.dfy | Sets | class `Set`, the facade of set.hpp |
| vector.dfy | Vectors | class `Vector` over an `array<int>` buffer |
| stack.dfy | Stacks | class `Stack` over a `Vector` |
| utils.dfy | Utils | the sequence algorithms |

## The tree model

- Nodes live in an arena. Slot `n` holds the key, the colour and the parent,
  left and right links of one node, and `-1` is the null pointer.
- `root` is the slot the engine writes the root through, as the `node_ptr*`
  parameter does. In a set that slot is the sentinel's `parent` field.
- A ghost datatype `Shape` records the tree the links realise.
- `Nodes()` is the in-order listing of node handles; `Elements()` is the keys
  along it.
- `Valid()` states that:
  - the links realise the shape;
  - the root slot holds its top;
  - the keys strictly increase along the listing.

Every rotation, leaf attachment, unlink and `swap_p` splice is proved to keep
`Valid()`, with an exact statement of the new listing. `RootBlack()` is kept by
insert and erase.

Containers hold `int` elements ordered by `<`, the default `less<int>`, so
"equivalent" means equal. Iterators into a set are node handles, with `-1` for
`end()`. `Place(h)` is a handle's position in the listing, and `end()` has
place `|Elements()|`.

## Model

| member | source | states |
|---|---|---|
| RedBlack.Tree.constructor | set.hpp:37-39 | the sentinel's root slot starts null: empty listing, root black |
| RedBlack.Tree.SwapColor | tree.hpp:30-35 | the node takes its right child's old colour and both children take the node's old colour; links, keys and shape unchanged |
| RedBlack.Tree.MinNode | tree.hpp:37-43 | null for null; otherwise the first node of the subtree's in-order listing, which has no left child and is its parent's left child unless it is the start |
| RedBlack.Tree.MaxNode | tree.hpp:45-51 | null for null; otherwise the last node of the subtree's in-order listing, with no right child |
| RedBlack.Tree.FindNode | tree.hpp:53-62 | null exactly when no key of the subtree equals k; otherwise a node of that subtree holding k |
| RedBlack.Tree.Lower | tree.hpp:64-83 | the first node of the subtree's listing whose key is not below k, or null when every key is below k |
| RedBlack.Tree.LowerRight | tree.hpp:69-80 | the loop step right past a smaller key keeps "everything passed is below k" and the rest of the listing is the right subtree |
| RedBlack.Tree.LowerLeft | tree.hpp:69-80 | the loop step left at a key not below k: the answer is the left subtree's answer, or the node itself when there is none |
| RedBlack.Tree.NewNode | tree.hpp:16-21 | create_node: a fresh red node with null links in a new slot; the tree is untouched |
| RedBlack.Tree.Clear | tree.hpp:85-97 | the root slot is nulled and the listing is empty; every node that was in the tree has its child links nulled |
| RedBlack.Tree.ClearSubtree | tree.hpp:85-97 | the recursion of clear below one node nulls the child links of exactly that subtree's nodes and changes no other slot |
| RedBlack.Tree.InsertBalance | tree.hpp:103-150 | the fix-up neither adds nor removes nodes, keeps the listing, and ends with the root black; it terminates when the root is black or the walk starts at the root |
| RedBlack.Tree.InsertRotateRight | tree.hpp:122-130 | the rotations for a red parent that is its grandparent's right child keep the listing and the root black, and move the walk at least two levels up |
| RedBlack.Tree.InsertRotateLeft | tree.hpp:131-139 | the mirror case for a parent that is a left child, with the same guarantees |
| RedBlack.Tree.Insert | tree.hpp:152-187 | succeeds exactly when the key is absent; the new key then enters the listing at its sorted place and the root is black; on failure shape, links, colours and root are unchanged |
| RedBlack.Tree.Place | tree.hpp:158-183 | the descent hangs the node as a leaf with its parent link set, at the sorted place of its key, unless an equal key is found, in which case nothing changes |
| RedBlack.Tree.SwapP | tree.hpp:189-206 | the replacement takes the removed node's parent slot, children and colour: the new shape substitutes one for the other and the listing has the replacement at the removed node's place |
| RedBlack.Tree.Erase | tree.hpp:208-231 | succeeds exactly when the key is present; that key then leaves the listing at its sorted place, the others keep their order and the root stays black; otherwise nothing changes |
| RedBlack.Tree.EraseAt | tree.hpp:212-227 | taking a found node out removes exactly that handle from the listing, whichever of the three paths applies |
| RedBlack.Tree.EraseByPredecessor | tree.hpp:213-226 | a node with a left child is replaced by its in-order predecessor; the listing loses exactly that node |
| RedBlack.Tree.EraseBySuccessor | tree.hpp:215-226 | a node with only a right child is replaced by its in-order successor; the listing loses exactly that node |
| RedBlack.Tree.EraseLeaf | tree.hpp:217-226 | a leaf is cut out below its parent, or the root slot is nulled; the listing loses exactly that node |
| RedBlack.Tree.EraseLeft | tree.hpp:233-254 | erase_left cuts out the node just before `some` in the listing, keeps `some`, keeps the root slot and returns the node cut out |
| RedBlack.Tree.DetachPredecessor | tree.hpp:234-246 | the cut of erase_left removes the listing's previous node and leaves colours untouched |
| RedBlack.Tree.EraseRight | tree.hpp:256-277 | erase_right cuts out the node just after `some` in the listing and returns it |
| RedBlack.Tree.DetachSuccessor | tree.hpp:257-269 | the cut of erase_right removes the listing's next node and leaves colours untouched |
| RedBlack.Tree.EraseNotChild | tree.hpp:279-294 | a leaf below the root is cut out of the listing; a leaf at the root is left for erase to drop |
| RedBlack.Tree.EraseBalance | tree.hpp:296-337 | the fix-up keeps nodes, listing, root slot and the root's colour |
| RedBlack.Tree.RecolourRotate | tree.hpp:306-310 | the all-black-nephews case recolours `some` and its brother, rotates, and lowers the termination measure |
| RedBlack.Tree.EraseRotate | tree.hpp:315-325 | the black-brother-with-right-child case keeps listing and root colour, and lowers the termination measure or moves up |
| RedBlack.Tree.TurnBrother | tree.hpp:316-320 | the inner rotation at the brother swaps the two colours named and leaves the brother's left child as `some`'s right child |
| RedBlack.Tree.RotateLeft | tree.hpp:339-363 | the right child takes x's place, the listing is unchanged, the two colours swap, and the root slot follows when x was the root |
| RedBlack.Tree.RotateRight | tree.hpp:365-388 | the left child takes x's place, the listing is unchanged, x turns red and the new top black, and the root slot follows |
| RedBlack.RelinkLeft | tree.hpp:340-357 | the link assignments of rotate_left produce exactly the rotated links |
| RedBlack.RelinkRight | tree.hpp:366-383 | the link assignments of rotate_right produce exactly the rotated links |
| RedBlack.DetachMax | tree.hpp:237-246 | erase_left's assignments unlink the maximum of the left subtree |
| RedBlack.DetachMin | tree.hpp:260-269 | erase_right's assignments unlink the minimum of the right subtree |
| RedBlack.DetachLeaf | tree.hpp:283-286 | erase_not_child's assignments unlink the leaf below its parent |
| RedBlack.Transplant | tree.hpp:189-205 | swap_p's assignments put the replacement in the removed node's place among the links |
| Iterators.MapIterator.constructor | iterator.hpp:39-41 | the iterator holds the given tree and node |
| Iterators.MapIterator.Deref | iterator.hpp:52-54 | the key at the iterator's place in the listing |
| Iterators.MapIterator.Inc | iterator.hpp:62-75 | end stays end; otherwise the iterator moves to the next place in the listing, and from the last node to end |
| Iterators.MapIterator.PostInc | iterator.hpp:77-81 | returns the old node and advances as Inc |
| Iterators.MapIterator.Dec | iterator.hpp:83-94 | from end to the last node; otherwise to the previous place; not from the first node |
| Iterators.MapIterator.PostDec | iterator.hpp:96-100 | returns the old node and moves back as Dec |
| Iterators.PrevUndoesNext | iterator.hpp:62-94 | for every place before end, `--` undoes `++`, including the last node, end, last node round trip |
| Iterators.NextUndoesPrev | iterator.hpp:62-94 | for every place after the first, `++` undoes `--` |
| Iterators.NextHoldsLeastKeyAbove | iterator.hpp:65-74 | the node `++` reaches holds the least key above the current one |
| Iterators.ClimbRightStop | iterator.hpp:69-73 | the ancestor where the climb from a right child stops is the next node in the listing |
| Iterators.ClimbLeftStop | iterator.hpp:89-92 | the ancestor where the climb from a left child stops is the previous node |
| Iterators.RightSubtreeNext | iterator.hpp:66-67 | the minimum of the right subtree is the next node in the listing |
| Iterators.LeftSubtreePrev | iterator.hpp:86-87 | the maximum of the left subtree is the previous node |
| Iterators.MapEqual | iterator.hpp:102-105 | equal exactly when both iterators are at the same place of the same tree; comparison ignores the root |
| Iterators.MapNotEqual | iterator.hpp:108-111 | the negation of MapEqual |
| Iterators.Deref | iterator.hpp:279-281 | `*it` reads the element at the iterator's offset into the buffer |
| Iterators.Plus | iterator.hpp:298-300 | `it + n` is the position n steps on from `it`: the difference back to `it` is n |
| Iterators.Minus | iterator.hpp:318-320 | `it - n` is the position from which n steps on lead back to `it` |
| Iterators.Diff | iterator.hpp:366-369 | `a - b` is the number of steps that take `b` to `a` |
| Iterators.Index | iterator.hpp:327-329 | `it[n]` reads the element at offset `it + n` |
| Iterators.PlusMinusRoundTrip | iterator.hpp:298-320 | `(it + n) - n == it` and `(it + n) - it == n` |
| Iterators.PlusDiff | iterator.hpp:362-369 | `a + (b - a) == b` |
| Iterators.Less | iterator.hpp:352-354 | `a < b` exactly when `b - a` is positive |
| Iterators.LessEqual | iterator.hpp:342-344 | `a <= b` exactly when `b - a` is not negative, and exactly when `a > b` fails |
| Iterators.Greater | iterator.hpp:347-349 | `b < a` |
| Iterators.GreaterEqual | iterator.hpp:357-359 | `a >= b` exactly when `a - b` is not negative, and exactly when `a < b` fails |
| Iterators.Trichotomy | iterator.hpp:342-359 | exactly one of `<`, `==` and `>` holds between two positions |
| Iterators.VectorIterator.constructor | iterator.hpp:261 | the iterator holds the given position |
| Iterators.VectorIterator.Inc | iterator.hpp:287-290 | the position moves one forward |
| Iterators.VectorIterator.PostInc | iterator.hpp:292-296 | returns the old position and moves one forward |
| Iterators.VectorIterator.Dec | iterator.hpp:307-310 | the position moves one back |
| Iterators.VectorIterator.PostDec | iterator.hpp:312-316 | returns the old position and moves one back |
| Iterators.VectorIterator.AddAssign | iterator.hpp:302-305 | the position moves n forward |
| Iterators.VectorIterator.SubAssign | iterator.hpp:322-325 | the position moves n back |
| Iterators.RevDeref | iterator.hpp:148-153 | `*rit` is what the base iterator reads one step back |
| Iterators.RevPlus | iterator.hpp:171-173 | `rit + n` is n reverse steps on from `rit`: the reverse difference back to `rit` is n |
| Iterators.RevMinus | iterator.hpp:192-194 | `rit - n` is the reverse position from which `+ n` leads back to `rit` |
| Iterators.RevDiff | iterator.hpp:242-245 | the difference of two reverse iterators is the difference of their bases taken the other way round |
| Iterators.RevIndex | iterator.hpp:201-203 | `rit[n]` is the element `*(rit + n)` reads |
| Iterators.ReverseTraversal | iterator.hpp:148-162 | starting from `end()`, the k-th step of a reverse iterator reads the k-th element from the back |
| Iterators.RevPlusDiff | iterator.hpp:171-199 | `b + (a - b) == a`, `(a + n) - n == a` and `(a + n) - a == n` for reverse iterators |
| Iterators.RevLess | iterator.hpp:218-220 | reverse `<` is base `>`, and the difference is then negative |
| Iterators.RevLessEqual | iterator.hpp:223-225 | reverse `<=` is base `>=`, with a reverse difference that is not positive, and exactly when reverse `>` fails |
| Iterators.RevGreater | iterator.hpp:228-230 | reverse `>` is reverse `<` swapped |
| Iterators.RevGreaterEqual | iterator.hpp:233-235 | reverse `>=` is base `<=`, with a reverse difference that is not negative, and exactly when reverse `<` fails |
| Iterators.RevLessIsEarlierInWalk | iterator.hpp:218-220 | a reverse iterator below another is fewer steps from `rbegin()`, and each reads the element that many places from the back |
| Iterators.ReverseIterator.constructor | iterator.hpp:125-129 | the iterator wraps the given base |
| Iterators.ReverseIterator.Inc | iterator.hpp:159-162 | `++` moves the base one back |
| Iterators.ReverseIterator.PostInc | iterator.hpp:164-169 | returns the old base and moves it one back |
| Iterators.ReverseIterator.Dec | iterator.hpp:180-183 | `--` moves the base one forward |
| Iterators.ReverseIterator.PostDec | iterator.hpp:185-190 | returns the old base and moves it one forward |
| Iterators.ReverseIterator.AddAssign | iterator.hpp:175-178 | `+= n` moves the base n back |
| Iterators.ReverseIterator.SubAssign | iterator.hpp:196-199 | `-= n` moves the base n forward |
| Sets.FirstAbove | set.hpp:205-212 | the place of the first key above k: every key before it is at most k |
| Sets.InsertedFacts | set.hpp:113-118 | inserting an absent key keeps the listing sorted, adds one element, and adds exactly that key |
| Sets.ErasedFacts | set.hpp:139-145 | erasing a present key keeps the listing sorted, removes one element, and removes exactly that key |
| Sets.RemoveSorted | set.hpp:132-137 | removing the key at one place keeps the listing sorted and removes that key alone |
| Sets.UpperFromLower | set.hpp:205-212 | the first place above k is the first place not below k, plus one exactly when that place holds k |
| Sets.BoundsEnclose | set.hpp:223-225 | between lower_bound and upper_bound lies k alone when present, nothing otherwise |
| Sets.SortedSameKeys | set.hpp:57-63 | two sorted listings with the same keys are the same listing |
| Sets.InsertedOne | set.hpp:126-130 | after each insert of the range loop, the keys are the old ones plus the items so far |
| Sets.Set.Sorted | set.hpp:37-39 | the set's keys strictly increase |
| Sets.Set.constructor | set.hpp:37-39 | an empty set |
| Sets.Set.FromRange | set.hpp:41-45 | the keys are exactly the items of the range |
| Sets.Set.Copy | set.hpp:52-55 | the copy holds the same keys |
| Sets.Set.Empty | set.hpp:101-103 | empty exactly when there are no keys |
| Sets.Set.Size | set.hpp:105-107 | the counter equals the number of keys |
| Sets.Set.Begin | set.hpp:67-69 | place 0, and end() exactly when the set is empty |
| Sets.Set.End | set.hpp:75-77 | the null node, one past the last place |
| Sets.Set.Insert | set.hpp:113-118 | inserted exactly when the key was absent; the key then enters at its sorted place, and the returned node is spliced into the node listing at that place with every old node kept in order; otherwise the keys and nodes are unchanged; the iterator is at that key either way, and every node held before the call is still in the tree, so earlier iterators stay valid |
| Sets.Set.InsertHint | set.hpp:120-124 | the hint is ignored: the same keys, node listing and iterator as insert, and every node held before the call survives it |
| Sets.Set.InsertRange | set.hpp:126-130 | the keys afterwards are the old keys together with the items, and every node held before the call is still in the tree |
| Sets.Set.Erase | set.hpp:139-145 | returns 1 exactly when the key was present, and then that key's node alone leaves the node listing; returns 0 otherwise, and then the keys, the node listing and the set of live nodes are unchanged, so every iterator stays valid |
| Sets.Set.EraseAt | set.hpp:132-137 | the key at the iterator's place leaves the listing, and the other nodes keep their order |
| Sets.Set.EraseNext | set.hpp:147-150 | one `erase(first++)`: the node at first's place goes, first moves to the next node, and last keeps its node one place earlier |
| Sets.Set.EraseRange | set.hpp:147-150 | the keys from first's place up to last's place are removed and no others |
| Sets.Set.Clear | set.hpp:167-171 | no keys and a zero counter |
| Sets.Set.Swap | set.hpp:152-165 | the two sets exchange trees, counters and keys |
| Sets.Set.Find | set.hpp:181-184 | end() exactly when k is absent; otherwise an iterator at k |
| Sets.Set.Count | set.hpp:191-195 | 1 exactly when k is present, else 0 |
| Sets.Set.LowerBound | set.hpp:197-199 | the first place whose key is not below k |
| Sets.Set.UpperBound | set.hpp:205-212 | the first place whose key is above k |
| Sets.Set.EqualRange | set.hpp:223-225 | the lower and upper bounds, enclosing k alone or nothing |
| Sets.Set.Keys | set.hpp:126-130 | walking begin() to end() with `++` reads the keys in order |
| Sets.Set.AssignAsWritten | set.hpp:57-63 | operator= as written: another set's keys are copied, but self-assignment empties the set |
| Sets.Set.Assign | set.hpp:57-63 | corrected operator=: the keys become the other set's keys, self-assignment included |
| Sets.SelfAssignmentEmpties | set.hpp:57-63 | a set holding 5, assigned to itself as written, ends empty |
| Sets.Equal | set.hpp:236-239 | equal exactly when the key listings are equal |
| Sets.NotEqual | set.hpp:241-244 | the negation of Equal |
| Sets.Less | set.hpp:246-249 | lexicographically less |
| Sets.LessEqual | set.hpp:251-254 | less or equal |
| Sets.Greater | set.hpp:256-259 | the other set is less |
| Sets.GreaterEqual | set.hpp:261-264 | greater or equal |
| Vectors.Regrown | vector.hpp:167-183 | the capacity after reserve(n) is the larger of n and twice the old capacity |
| Vectors.Copies | vector.hpp:221-235 | n elements, each equal to the value |
| Vectors.Vector.constructor | vector.hpp:31 | no elements and no capacity |
| Vectors.Vector.Reserve | vector.hpp:167-183 | logic_error with nothing changed above max_size; otherwise the new capacity is Regrown and the elements are kept |
| Vectors.Vector.PushBack | vector.hpp:193-197 | the value is appended and earlier elements are kept; logic_error at max_size; on success the elements sit in a fresh buffer, and on failure the buffer is kept |
| Vectors.Vector.PopBack | vector.hpp:199-204 | the last element is dropped; no-op when empty; capacity kept |
| Vectors.Vector.Insert | vector.hpp:206-219 | logic_error for a position past the end; otherwise the value at d, the elements before it kept, the rest one place up, and the iterator at d; on success the elements sit in a fresh buffer, and on failure the buffer is kept |
| Vectors.Vector.InsertFill | vector.hpp:221-235 | the corrected insert(pos, n, val): logic_error, with the vector unchanged, past end() or when size + n exceeds max_size; otherwise n copies of the value at d, with the tail moved up by n, in a fresh buffer |
| Vectors.Vector.InsertRange | vector.hpp:237-268 | the range appears in order at d; if building a copy throws, logic_error with the vector unchanged; on success the elements sit in a fresh buffer, and on failure the buffer is kept |
| Vectors.Vector.ShiftUp | vector.hpp:206-268 | the slots from d move up by n, and the slots below d are kept |
| Vectors.Vector.ShiftDown | vector.hpp:270-298 | the slots from d + n move down to d, and the slots below d are kept |
| Vectors.Vector.PutAt | vector.hpp:213-217 | the value lands at d between the old elements |
| Vectors.Vector.FillGap | vector.hpp:227-233 | the copies land at d between the old elements |
| Vectors.Vector.CopyIntoGap | vector.hpp:255-265 | the staged elements land at d between the old elements |
| Vectors.Vector.Erase | vector.hpp:270-282 | the element at the position goes and the rest keep their order, in the same buffer; end() on an empty vector |
| Vectors.Vector.EraseRange | vector.hpp:284-298 | the elements in [first, last) go and the tail keeps its order, in the same buffer; end() on an empty vector |
| Vectors.Vector.Clear | vector.hpp:300-303 | no elements; capacity and buffer kept |
| Vectors.Vector.Resize | vector.hpp:185-191 | truncates to n keeping capacity and buffer, or pads with copies of the value up to n in a fresh buffer of capacity Regrown(old capacity, n); logic_error past max_size with the buffer kept |
| Vectors.Vector.Swap | vector.hpp:305-318 | buffer, size and capacity are exchanged |
| Vectors.Vector.AssignFill | vector.hpp:162-165 | the elements become n copies of the value, with capacity Regrown(old capacity, n); past max_size, logic_error with no elements and the capacity kept; on success the elements sit in a fresh buffer, and on failure the buffer is kept |
| Vectors.Vector.AssignRange | vector.hpp:156-160 | the elements become the range, with capacity Regrown(old capacity, length); if a copy throws or the range is too long, logic_error with no elements and the capacity kept; on success the elements sit in a fresh buffer, and on failure the buffer is kept |
| Vectors.Vector.Assign | vector.hpp:44-53 | the elements become the other vector's; from another vector they sit in a fresh buffer of capacity Regrown(its capacity, its size), and self-assignment keeps capacity and buffer |
| Vectors.Vector.Get | vector.hpp:101-107 | the element at offset n |
| Vectors.Vector.At | vector.hpp:109-119 | out_of_range exactly when n is not below the size; otherwise the element at n |
| Vectors.Vector.Front | vector.hpp:121-127 | the first element |
| Vectors.Vector.Back | vector.hpp:129-135 | the last element |
| Vectors.AtRejectsAsWritten | vector.hpp:110-111 | the as-written guard rejects only offsets past the size |
| Vectors.AtAsWrittenReadsPastEnd | vector.hpp:110-112 | after one push_back on an empty vector, size and capacity are 1 and the as-written guard lets at(1) through to slot 1, past the buffer |
| Vectors.EraseReadsAsWritten | vector.hpp:276-279 | the slots the as-written erase loop reads all lie above d, up to the size |
| Vectors.EraseReadsSlotSize | vector.hpp:276-279 | that loop always reads slot `size`, which holds no element |
| Vectors.EraseAsWrittenReadsPastEnd | vector.hpp:276-279 | after one push_back on an empty vector, size and capacity are 1 and erase(begin()) as written reads slot 1, past the buffer |
| Vectors.SizeAdd | vector.hpp:226 | size_t addition: the sum when it fits, otherwise the sum less 2^64, which is below the first operand |
| Vectors.FillReserveAsWritten | vector.hpp:226 | the capacity insert(pos, n, val) asks reserve for: size + n when it fits, and a value below the size when it wraps |
| Vectors.InsertFillAsWrittenWraps | vector.hpp:221-235 | on a one-element vector with n = SIZE_MAX, the as-written reserve argument is 0, which passes the max_size check; the buffer left has 2 slots, fewer than the elements the loops place, although size + n exceeds max_size |
| Vectors.Equal | vector.hpp:326-329 | equal exactly when the element sequences are equal |
| Vectors.NotEqual | vector.hpp:331-334 | the negation of Equal |
| Vectors.Less | vector.hpp:336-339 | lexicographically less |
| Vectors.LessEqual | vector.hpp:341-344 | less or equal |
| Vectors.Greater | vector.hpp:346-349 | the other vector is less |
| Vectors.GreaterEqual | vector.hpp:351-354 | greater or equal |
| Stacks.Pushed | stack.hpp:38-40 | the pushed value is on top and the rest is unchanged |
| Stacks.Popped | stack.hpp:42-44 | the top is gone; an empty stack stays empty |
| Stacks.PushThenPop | stack.hpp:38-44 | push then pop restores the contents |
| Stacks.PopThenPushTop | stack.hpp:38-44 | popping and pushing back the old top restores a non-empty stack |
| Stacks.Stack.constructor | stack.hpp:18 | the stack holds a copy of the container's elements |
| Stacks.Stack.Empty | stack.hpp:22-24 | empty exactly when there are no elements |
| Stacks.Stack.Size | stack.hpp:26-28 | the number of elements |
| Stacks.Stack.Top | stack.hpp:30-36 | the most recently pushed element still present |
| Stacks.Stack.Push | stack.hpp:38-40 | the contents become Pushed; logic_error at max_size |
| Stacks.Stack.Pop | stack.hpp:42-44 | the contents become Popped |
| Stacks.Equal | stack.hpp:46-49 | the containers are equal |
| Stacks.NotEqual | stack.hpp:54-57 | the containers differ |
| Stacks.Less | stack.hpp:50-53 | the contents are lexicographically below the other stack's |
| Stacks.LessEqual | stack.hpp:66-68 | the contents are lexicographically below the other stack's, or equal to them |
| Stacks.Greater | stack.hpp:58-61 | the other stack's contents are lexicographically below these |
| Stacks.GreaterEqual | stack.hpp:62-65 | the other stack's contents are lexicographically below these, or equal to them |
| Utils.Less | utils.hpp:23-28 | exactly `x < y`; the tree's find_node, lower and insert compare keys through it, and insert's equivalence test (both comparisons false) is then key equality |
| Utils.LexLessIff | utils.hpp:100-109 | the recursive order is "equal up to a place, then smaller or a proper prefix", both ways |
| Utils.LexIrreflexive | utils.hpp:108 | no sequence is below itself |
| Utils.LexAsymmetric | utils.hpp:100-109 | at most one of two sequences is below the other |
| Utils.LexTotal | utils.hpp:100-109 | of two different sequences, one is below the other |
| Utils.LexTransitive | utils.hpp:100-109 | the order is transitive |
| Utils.NeitherBelowIsEqual | utils.hpp:100-109 | neither below the other exactly when equal |
| Utils.LexicographicalCompare | utils.hpp:100-109 | the loop's answer is the lexicographic order |
| Utils.Equal | utils.hpp:122-130 | true exactly when the first range equals the second's prefix of the same length |
| Utils.EqualBy | utils.hpp:132-140 | true exactly when the predicate holds at every offset |
| Utils.Distance | utils.hpp:143-150 | the number of `++` steps from first to last |

## Left out

- Allocation: `create_node`, `delete_node` and the allocator calls are not modelled. A fresh node is a new arena slot. A key insert refuses keeps its slot, unlinked, instead of freeing it (tree.hpp:161-162). A vector's new buffer is a fresh array.
- RedBlack.Tree.InsertBalance, RedBlack.Tree.EraseBalance: the contracts do not claim the red-black colour rules (no red node with a red child, equal black heights). The code does not establish them:
  - the zig-zag follow-up rotations of insert_balance never fire (tree.hpp:127-128, 136-137);
  - rotate_right forces colours (tree.hpp:384-385);
  - erase_balance looks only at the right brother (tree.hpp:302).

  Both contracts cover order, membership, links and root colour instead.
- The branch at tree.hpp:326 is unreachable under the loop guard at tree.hpp:301. It is modelled as dead. The recolouring at tree.hpp:288-289 never applies to a leaf.
- `max_size`: the constant `MaxSize` is `size_t`'s maximum divided by `sizeof(int)`, for 64-bit `size_t` and 4-byte `int`. The tree's `max_size` is not modelled.
- Integer widths: sizes are bounded by `MaxSize`, but `size_t` can still wrap in two places. `insert(pos, n, val)` computes `_size + n` (vector.hpp:226) without checking that it fits. That case is a row under "## Findings", and Vectors.Vector.InsertFill models the corrected check. The capacity doubling at vector.hpp:171 can also wrap, as the next line says. No other size sum can wrap: `insert(pos, val)` adds 1 to a size at most `MaxSize`, resize passes `n` itself, assign clears first, and the model's ranges are finite sequences. Negative sizes, which `n < 0` guards against, do not exist for `size_t`.
- Vectors.Vector.Reserve, Vectors.Vector.PushBack: capacity is an unbounded `nat`, and nothing caps the doubling. Every successful reserve doubles `_capacity` (vector.hpp:171), and push_back, every insert overload and assign reserve on each call, so k push_backs on an empty vector leave capacity 2^(k-1). In the source the `size_t` product wraps at about the 65th push_back. With a real allocator, `allocate` at vector.hpp:174 fails long before that, and `_capacity` is then left doubled over the old buffer. Neither the wrap nor that allocation failure is modelled: reserve succeeds whenever its argument is at most `MaxSize`.
- Vectors.Vector.Insert, Vectors.Vector.InsertFill, Vectors.Vector.InsertRange: these require a position at or after `begin()`. An iterator before the buffer is undefined behaviour.
- Vectors.Vector.InsertRange, Vectors.Vector.AssignRange: a throwing element copy is the parameter `failAt`. The catch block's clean-up of the staged buffer is not modelled beyond "nothing changed".
- Vectors.Vector.InsertRange, Vectors.Vector.AssignRange: the input range is a sequence, which can be read more than once. The source takes an `InputIterator` and first counts it with `distance` (vector.hpp:239). For a single-pass iterator such as `istream_iterator`, the count consumes the range before the staging loop (vector.hpp:246-247) reads it again. Such inputs, which also reach `assign(first, last)` and the range constructor (vector.hpp:156-160, 40-41), are not modelled. For them, the promise that the range appears in order at the position does not hold.
- The vector's fill, range and copy constructors are not modelled separately. Each is an insert into an empty vector (vector.hpp:33-41, 54-56).
- Vectors.Vector.Erase: requires a position inside the elements of a non-empty vector. At `end()` the source's loop does not run. Instead it destroys slot `_size`, which holds no element (vector.hpp:275), and still drops the last element (vector.hpp:280), so the element the caller named is not the one removed.
- Iterators.MapIterator.Dec, Iterators.MapIterator.PostDec: require the iterator not to be at the first node. From there the source climbs past the root into a null parent.
- Vectors.Vector.Front, Vectors.Vector.Back, Stacks.Stack.Top: require a non-empty container, and Vectors.Vector.Get requires `n < size`. The source's `front`, `back`, `top` and `operator[]` do not check (vector.hpp:101-135, stack.hpp:30-36).
- The comparator overload of `lexicographical_compare` (utils.hpp:111-120) is left out. It hands `comp` a `bool`.
- Compile-time machinery (`enable_if`, `is_integral`, `integral_constant`, `binary_function`, `switch_const`), iterator typedefs and const conversions are left out. They have no runtime behaviour.
- The set's `rbegin`/`rend`, `key_comp`, `value_comp`, `get_allocator`, `max_size` and destructor are left out. `reverse_iterator` is modelled over vector positions only.
- Iterators.ReverseIterator.Base: `base()` only hands back the wrapped position, so it has no row of its own. What a reverse iterator reads through its base is stated by Iterators.RevDeref.
- The set's iterators are node handles into the one tree they belong to. Their `_root` member is not modelled, and MapEqual ignores it as the source does.
- Sets.Set.AssignAsWritten, Sets.Set.Assign: require the two sets to share no tree unless they are the same set. Distinct sets never share a sentinel in the source.
- Sets.Set.Swap: the comparator is not exchanged, because `less<int>` is stateless.

## Findings

| source | as written | input that shows it | evidently intended | confidence | as-written member | corrected member |
|---|---|---|---|---|---|---|
| vector.hpp:110-112 | `at(n)` throws only when `n > _size` | a vector of one element with capacity 1, then `at(1)` | throw out_of_range when `n >= size()` | not executed | Vectors.AtRejectsAsWritten | Vectors.Vector.At |
| vector.hpp:221-235 | `insert(pos, n, val)` calls `reserve(_size + n)` with no check that the `size_t` sum fits | a vector of one element with capacity 1, then `insert(begin(), -1, x)`: the count converts to SIZE_MAX, the sum wraps to 0, reserve does not throw, and the loops write past the 2-slot buffer | throw logic_error when `n > max_size() - _size` | not executed | Vectors.InsertFillAsWrittenWraps | Vectors.Vector.InsertFill |
| vector.hpp:276-279 | `erase(position)` copies `_pointer[distance + i + 1]` until `distance + i == _size`, so its last step reads slot `_size` | a vector of one element with capacity 1, then `erase(begin())` reads slot 1, past the buffer | stop the shift one step earlier | not executed | Vectors.EraseAsWrittenReadsPastEnd | Vectors.Vector.Erase |
| set.hpp:57-63 | `operator=` clears the set, then inserts `other`'s range | a set holding 5 assigned to itself ends empty | skip the copy when `this == &other`, as vector's `operator=` does | not executed | Sets.SelfAssignmentEmpties | Sets.Set.Assign |
