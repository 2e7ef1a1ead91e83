# Linear containers of the payroll data-structures library

This project models the container core of a small payroll data-structures library and proves its properties in Dafny. The core comes from two Python modules.

`stack.py` provides:
- a list-backed `Stack` with an optional size bound and top-relative `search` and `element_at`;
- `StackWithMin`, a stack of integers that reports its minimum through an auxiliary list of running minima;
- three stack-driven utilities: a bracket matcher, a string reverser and a decimal-to-binary converter.

`queue.py` provides:
- a list-backed `Queue` with an optional bound;
- `CircularQueue`, a fixed-capacity ring buffer with `front`/`rear`/`size` indices over a slot array;
- `PriorityQueue`, a stable insertion-sorted list of (element, priority) pairs;
- `Deque`, a list with insertion and removal at both ends.

Every container is a Dafny `class` whose fields its methods update in place:
- The list-backed containers hold their list as a `seq` field.
- The ring buffer keeps its slots in an `array<Option<T>>`. A ghost `Contents` holds its abstract front-to-rear view.
- The priority queue keeps a ghost arrival log. Its invariant relates the sorted entries to that log, so stability can be stated at all.

Python's `None` results are modelled as `Option`. The exceptions raised on overflow and underflow are modelled as `Result` values `Err(Overflow)` and `Err(Underflow)`, and every failing call leaves the state as it was.

The three utilities are methods with the source's loops over a local `Stack`, each proved equal to a specification function:
- `Reverse` for the string reverser.
- `Scan` for the bracket matcher. `Scan` is the matcher's stack machine as a function. The lemma `ScanAcceptsBalanced` proves it accepts exactly the words of a bracket grammar (`Dyck`).
- `BinaryDigits` for the converter. Its own lemmas show it inverts `BinaryValue`.

Files:
- `wrappers.dfy`: `Option`, `Error`, `Result`.
- `sequences.dfy`: `Last`, `DropLast`, `Reverse`, `FirstIndexOf`.
- `stack.dfy`: `Stack`, `StackWithMin` and the running-minima lemmas.
- `stack_applications.dfy`: the three utilities.
- `queue.dfy`: `Queue` and `Deque`.
- `circular_queue.dfy`: `CircularQueue`.
- `priority_queue.dfy`: `PriorityQueue`.

## Model

| member | source | states |
|---|---|---|
| Stacks.Stack.constructor | stack.py:12-20 | a new stack is empty and has the given bound |
| Stacks.Stack.Push | stack.py:22-39 | when a bound is set and reached, fails with Overflow and leaves the items unchanged; otherwise appends at the top and returns the new size |
| Stacks.Stack.Pop | stack.py:41-54 | an empty stack fails with Underflow and stays empty; otherwise returns the last pushed element and removes exactly it |
| Stacks.Stack.Peek | stack.py:56-66 | None exactly when the stack is empty, otherwise the top element |
| Stacks.Stack.IsEmpty | stack.py:68-75 | true exactly when the size is 0 |
| Stacks.Stack.Clear | stack.py:86-90 | the items become empty and the bound is kept |
| Stacks.Stack.SetMaxSize | stack.py:92-99 | replaces the bound without touching the items, even when they exceed it |
| Stacks.Stack.GetAll | stack.py:101-108 | a bottom-first copy: its position k holds the element at distance size-1-k from the top |
| Stacks.Stack.Search | stack.py:128-142 | -1 exactly when the element is absent; otherwise element_at of the result is the element and no position nearer the top holds it |
| Stacks.Stack.ElementAt | stack.py:144-157 | None exactly for positions outside [0, size); otherwise items[size-1-position]; position 0 gives peek |
| Stacks.PushThenPop | stack.py:22-54 | an admitted push followed by pop returns the pushed element and restores the previous items and bound |
| Stacks.PushAllThenPopAll | stack.py:22-54 | the LIFO law: pushing xs and popping until empty returns the reverse of the old items followed by xs |
| Stacks.PrefixMinima | stack.py:176-177 | the min_stack that push builds from the items: never longer than the items |
| Stacks.PrefixMinimaLastIsMinimum | stack.py:169-177 | the last running minimum is an element of the stack no larger than any element, and the minima are empty exactly for an empty stack |
| Stacks.PrefixMinimaShape | stack.py:169-177 | the running minima are non-increasing and a subsequence of the items |
| Stacks.PrefixMinimaNonIncreasing | stack.py:176-177 | the running minima are non-increasing |
| Stacks.PrefixMinimaSubsequence | stack.py:176-177 | the running minima are a subsequence of the items |
| Stacks.PrefixMinimaAfterPop | stack.py:179-189 | popping the top removes the last running minimum exactly when the popped value equals it |
| Stacks.StackWithMin.constructor | stack.py:165-167 | a new min-stack is empty, has the given bound and satisfies its invariant |
| Stacks.StackWithMin.Push | stack.py:169-177 | pushes like Stack.push, or fails with Overflow unchanged, and keeps the running minima equal to those of the items |
| Stacks.StackWithMin.Pop | stack.py:179-189 | pops like Stack.pop, or fails with Underflow, and keeps the running minima equal to those of the items |
| Stacks.StackWithMin.GetMin | stack.py:191-200 | under the invariant: None exactly when empty; otherwise a member of the stack no larger than any member |
| Stacks.StackWithMin.Clear | stack.py:86-90 | empties the items and the running minima together, so get_min is afterwards None |
| Stacks.StaleMinimumAfterInheritedClear | stack.py:86-90 | the inherited clear leaves an empty stack whose get_min is still 1 after push(1) |
| StackApplications.Brackets | stack.py:218-225 | keeps only bracket characters |
| StackApplications.Scan | stack.py:218-227 | the matcher loop as a function: the stack left after the expression, or None where the loop returns false early; the final stack is never longer than the start stack plus the expression |
| StackApplications.ScanIgnoresOthers | stack.py:218-225 | the matcher's stack machine gives the same answer on an expression as on its brackets alone |
| StackApplications.DyckScan | stack.py:218-227 | a balanced word leaves the machine's stack as it found it |
| StackApplications.ScanCloses | stack.py:218-227 | a bracket word that empties the machine's stack closes it by a balanced decomposition |
| StackApplications.ScanAcceptsBalanced | stack.py:218-227 | the stack machine ends with an empty stack exactly when the expression's brackets are balanced |
| StackApplications.IsBalancedParentheses | stack.py:203-227 | returns true exactly when the ()[]{} characters of the expression are properly nested and matched |
| StackApplications.BalancedExamplesFlat | stack.py:218-227 | "" and "()[]{}" are balanced |
| StackApplications.BalancedExamplesNested | stack.py:324 | "({[]})" and "((()))" are balanced |
| StackApplications.UnbalancedExamplesUnclosed | stack.py:324 | "(" and "()[]{" are not balanced |
| StackApplications.UnbalancedExamplesCrossed | stack.py:324 | "([)]" is not balanced |
| StackApplications.UnclosedIsUnbalanced | stack.py:226-227 | an opening bracket followed only by non-brackets is unbalanced |
| StackApplications.MismatchedIsUnbalanced | stack.py:223-224 | an opening bracket closed by a bracket of another kind is unbalanced |
| StackApplications.UnbalancedExamplesPayroll | test_data_structures.py:197-198 | "(salary + bonus" and "[pay - tax)" are not balanced |
| StackApplications.ReverseStringUsingStack | stack.py:230-251 | returns exactly the reversal of the text: same length, position k holds character len(text)-1-k |
| StackApplications.ReverseExamples | stack.py:243-251 | "Hello" reverses to "olleH" |
| StackApplications.BinaryDigits | stack.py:264-278 | the converter's result for n != 0: the base-2 digits of n, most significant first; empty exactly for n <= 0, and only '0' and '1' |
| StackApplications.BinaryDigitsCorrect | stack.py:269-278 | for n > 0 the digits are 0/1, start with 1, and have base-2 value n |
| StackApplications.BinaryDigitsOfValue | stack.py:269-278 | every 0/1 string starting with 1 is the digit string of its own value |
| StackApplications.BinaryExamples | stack.py:333-334 | 42 converts to "101010" |
| StackApplications.DecimalToBinary | stack.py:254-278 | 0 gives "0"; n > 0 gives a 0/1 string starting with 1 of value n; n < 0 gives "" |
| Sequences.Reverse | stack.py:243-251 | the reverser's result: the elements last first, of the same length |
| Sequences.ReverseIsMirror | stack.py:243-251 | the reversal has the same length and position k holds element len(s)-1-k |
| Sequences.FirstIndexOf | queue.py:140-153 | -1 exactly when absent; otherwise an index of x with no earlier occurrence |
| Queues.Queue.constructor | queue.py:12-20 | a new queue is empty and has the given bound |
| Queues.Queue.Enqueue | queue.py:22-39 | when a bound is set and reached, fails with Overflow unchanged; otherwise appends at the rear and returns the new size |
| Queues.Queue.Dequeue | queue.py:41-54 | an empty queue fails with Underflow; otherwise returns the front element and removes exactly it |
| Queues.Queue.Front | queue.py:56-66 | None exactly when empty, otherwise the first element, which is element_at(0) |
| Queues.Queue.Rear | queue.py:68-78 | None exactly when empty, otherwise the last element, which is element_at(size-1) |
| Queues.Queue.IsEmpty | queue.py:80-87 | true exactly when the size is 0 |
| Queues.Queue.Clear | queue.py:98-102 | the items become empty and the bound is kept |
| Queues.Queue.SetMaxSize | queue.py:104-111 | replaces the bound without touching the items |
| Queues.Queue.GetAll | queue.py:113-120 | a front-first copy: its position k is element_at(k) |
| Queues.Queue.Search | queue.py:140-153 | -1 exactly when absent; otherwise element_at of the result is the element and no earlier position holds it |
| Queues.Queue.ElementAt | queue.py:155-168 | None exactly for positions outside [0, size); otherwise items[position] |
| Queues.EnqueueAllThenDequeueAll | queue.py:22-54 | the FIFO law: enqueuing xs and dequeuing until empty returns the old contents followed by xs in order |
| Queues.Deque.constructor | queue.py:426-430 | a new deque is empty |
| Queues.Deque.AddFront | queue.py:432-443 | inserts before the front and returns the new size |
| Queues.Deque.AddRear | queue.py:445-456 | appends after the rear and returns the new size |
| Queues.Deque.RemoveFront | queue.py:458-471 | an empty deque fails with Underflow; otherwise returns and removes the front element |
| Queues.Deque.RemoveRear | queue.py:473-486 | an empty deque fails with Underflow; otherwise returns and removes the rear element |
| Queues.Deque.PeekFront | queue.py:488-498 | None exactly when empty, otherwise the front element |
| Queues.Deque.PeekRear | queue.py:500-510 | None exactly when empty, otherwise the rear element |
| Queues.Deque.IsEmpty | queue.py:512-519 | true exactly when the size is 0 |
| Queues.Deque.Clear | queue.py:530-534 | the items become empty |
| Queues.Deque.GetAll | queue.py:536-543 | a copy of the contents, front first: position k is items[k], and its ends are the two peeks |
| Queues.AddFrontThenRemoveFront | queue.py:432-471 | add_front then remove_front returns the added element and restores the previous contents |
| Queues.AddRearThenRemoveRear | queue.py:445-486 | add_rear then remove_rear returns the added element and restores the previous contents |
| Queues.DequeDemoExample | queue.py:678-686 | add_rear 1, add_front 2, add_rear 3, add_front 4 lists [4, 2, 1, 3]; removing at each end yields 4 and 3 and leaves [2, 1] |
| CircularQueues.ModStep | queue.py:209 | advancing an index by one modulo the capacity wraps only at the last slot |
| CircularQueues.WrapIsMod | queue.py:313 | k modular steps from front land on slot (front + k) % capacity |
| CircularQueues.WrapGrow | queue.py:209-211 | writing the slot after rear extends the window by exactly that slot, which no earlier element occupies |
| CircularQueues.WrapShift | queue.py:228-234 | advancing front drops exactly the old front slot from the window and renumbers the rest by one |
| CircularQueues.CircularQueue.constructor | queue.py:177-188 | capacity empty slots, front == rear == -1, size 0 |
| CircularQueues.CircularQueue.Enqueue | queue.py:190-212 | a full buffer fails with Overflow and leaves slots, front, rear and size unchanged; otherwise the element joins the rear of the contents and the new size is returned; the ring invariant is kept |
| CircularQueues.CircularQueue.Dequeue | queue.py:214-237 | an empty buffer fails with Underflow; otherwise the front element is returned, its slot becomes None, and the contents lose their first element; removing the last element resets front and rear to -1 |
| CircularQueues.CircularQueue.GetFront | queue.py:239-249 | None exactly when empty, otherwise the first element of the contents |
| CircularQueues.CircularQueue.GetRear | queue.py:251-261 | None exactly when empty, otherwise the last element of the contents |
| CircularQueues.CircularQueue.IsEmpty | queue.py:263-270 | under the ring invariant, true exactly when the abstract contents are empty |
| CircularQueues.CircularQueue.GetSize | queue.py:281-288 | under the ring invariant, the number of elements in the abstract contents |
| CircularQueues.CircularQueue.IsFull | queue.py:272-279 | true exactly when the contents fill the capacity |
| CircularQueues.CircularQueue.Clear | queue.py:290-297 | every slot is None, front == rear == -1 and the size is 0 |
| CircularQueues.CircularQueue.GetAll | queue.py:299-315 | the walk of size modular steps from front returns the contents in FIFO order, wrapped or not |
| CircularQueues.RearIsModular | queue.py:206-211 | while non-empty, rear == (front + size - 1) % capacity |
| CircularQueues.WrapAroundExample | queue.py:657-664 | capacity 3, enqueue 1, 2, 3, dequeue gives 1, enqueue 4, then get_all gives [2, 3, 4] |
| PriorityQueues.InsertionPoint | queue.py:347-354 | the insertion index: every entry before it has priority at least p, and the entry at it has lower priority |
| PriorityQueues.Insert | queue.py:343-356 | the entries after enqueue: the new pair placed at the insertion index, one longer and containing the new pair |
| PriorityQueues.RemoveFirstWithPriority | queue.py:371 | the arrival log after dequeue drops the earliest arrival of the front priority: one shorter when that priority is present, and a sub-multiset of the log |
| PriorityQueues.InsertionPointIs | queue.py:347-354 | the scan of enqueue stops exactly at the insertion index |
| PriorityQueues.InsertKeepsSorted | queue.py:343-356 | insertion keeps the entries in non-increasing priority order |
| PriorityQueues.InsertIsStable | queue.py:343-356 | among entries of any one priority, earlier entries keep their order and the new entry comes last |
| PriorityQueues.InsertAddsEntry | queue.py:341-356 | insertion grows the size by one and adds exactly the new pair to the multiset of entries |
| PriorityQueues.RemoveFirstWithPriorityFilter | queue.py:371 | removing the earliest entry of one priority drops the head of that priority's entries and leaves the others alone |
| PriorityQueues.FrontIsHighestAndEarliest | queue.py:358-383 | the front entry has the highest priority of all queued arrivals and is the earliest arrival of that priority |
| PriorityQueues.InsertKeepsArrivalOrder | queue.py:330-356 | the representation invariant (sorted, and per priority equal to the arrival log) survives an enqueue |
| PriorityQueues.DropFrontKeepsArrivalOrder | queue.py:358-371 | the representation invariant survives removing the front entry together with its earliest arrival |
| PriorityQueues.PriorityQueue.constructor | queue.py:324-328 | a new priority queue is empty |
| PriorityQueues.PriorityQueue.Enqueue | queue.py:330-356 | the scanning loop inserts the pair at its insertion point, appends it to the arrival log, keeps the invariant and returns the new size |
| PriorityQueues.PriorityQueue.Dequeue | queue.py:358-371 | an empty queue fails with Underflow; otherwise returns the front element, drops the front pair, and removes the earliest arrival of its priority from the log |
| PriorityQueues.PriorityQueue.Front | queue.py:373-383 | None exactly when empty, otherwise the element of the front pair |
| PriorityQueues.PriorityQueue.IsEmpty | queue.py:385-392 | true exactly when the size is 0 |
| PriorityQueues.PriorityQueue.Clear | queue.py:403-407 | the entries become empty |
| PriorityQueues.PriorityQueue.GetAll | queue.py:409-417 | the pairs in current order (position k is items[k]), sorted by non-increasing priority, per priority in arrival order, headed by the front |
| PriorityQueues.StableOrderExample | queue.py:343-371 | one example of the tie rule: a at 1, then b and c at 3, dequeue as b, c, a |
| PriorityQueues.DemoExample | queue.py:668-674 | Task1 at 1, Urgent Task at 5, Task2 at 2 and Critical Task at 4 are listed by priority, and Urgent Task is next |

## Left out

- The Flask service in `api_server.py` is not part of this model. It is a thin call-through with I/O.
- The `simulate_*` functions, the `__main__` demonstrations and `__str__`/`__repr__` are console printing and string formatting. Only the demonstrations' inputs appear, as example lemmas and methods.
- Python's dynamic typing is replaced by generic element types:
  - `StackWithMin` holds `int`.
  - Priorities are `int`.
  - A `None` pushed as an element is a value of `T` like any other. The ring buffer tells an empty slot from an element by `Option`.
- `OverflowError` and `IndexError` are modelled as `Err(Overflow)` and `Err(Underflow)` results, not as exceptions.
- `max_size` is an `Option<int>`. `set_max_size` accepts any value, as in the source.
- There is no class invariant `size <= max_size`. Lowering the bound does not trim the contents, so the source promises only the push/enqueue guard. This is weaker than the wording that the bound holds throughout.
- `CircularQueues.CircularQueue.constructor`: requires `capacity > 0`. A capacity of 0 in the source gives a queue that rejects every enqueue, because it is full from the start. A negative capacity makes enqueue raise IndexError after it has already changed front and rear. The model covers neither case.
- `Stacks.StackWithMin`: holds a `Stack` plus the running minima instead of inheriting from `Stack`. That is why it answers only push, pop, get_min and clear itself; the other inherited queries are reached through `base`.
- `Stacks.StackWithMin.Push`: returns `Ok(())` rather than a size, because the source's override returns nothing.
- `StackApplications.DecimalToBinary`: `str(remainder)` is modelled as the character `'0'` or `'1'` directly.
- `StackApplications.ReverseExamples`: proves the reversal of `"Hello"`, not the demonstration's `"Hello World"`; the general `ReverseStringUsingStack` contract covers both.
- `PriorityQueues.PriorityQueue.Size`, `Stacks.Stack.Size`, `Queues.Queue.Size` and `Queues.Deque.Size` return the length with no contract of their own. Each of these containers states its `IsEmpty` in terms of it.
- The copies made by `get_all` are implicit: a `seq` is a value.
- `decimal_to_binary` on negative input is documented nowhere. The model follows the code: the loop does not run, so the result is `""`, and `DecimalToBinary` states that.

## Findings

| source | as written | input that shows it | evidently intended | confidence | as-written member | corrected member |
|---|---|---|---|---|---|---|
| stack.py:86-90 | `StackWithMin` inherits `Stack.clear`, which empties `items` but not `min_stack` | `push(1)`, `clear()`, then `get_min()` answers 1 on an empty stack | `clear` also empties `min_stack`, so `get_min()` answers None | not executed | Stacks.StaleMinimumAfterInheritedClear | Stacks.StackWithMin.Clear |
