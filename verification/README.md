# Jinja's LRU cache, cycler, joiner and autoescape selector in Dafny

This project models the stateful helpers of `src/jinja2/utils.py`:

- `LRUCache`, the bounded least-recently-used cache Jinja keeps compiled templates in. It holds a capacity, a dict `_mapping` and a deque `_queue` of keys. The front of the queue is the least recently used key and the back the most recently used one.
- `Cycler`, which yields its items in order and starts over after the last one.
- `Joiner`, which returns `""` on its first call and its separator after that.
- The `autoescape(template_name)` decision function that `select_autoescape` returns.

The cache is an immutable value, `LruCache.Cache(capacity, mapping, queue)`. Each method is a pure function that returns the new state, plus the returned value where the method has one. A raised Python exception becomes `Errors.Raised(KeyError)` (or `IndexError`, `RuntimeError`). `Cache.Valid()` is the class invariant:

- the capacity is at least 1;
- the queue has no duplicates;
- the queue's element set equals the mapping's key set;
- the mapping holds at most `capacity` entries.

`Init` establishes the invariant and every mutating operation keeps it. The module `LruRecency` proves the property that makes the cache an LRU cache. Take any sequence of gets, sets, deletes and clears on a fresh cache. The queue is then the list of touched keys ordered by their last touch and cut down to the keys still present. So the front of the queue, which `__setitem__` evicts, is the present key touched longest ago.

Files:

- `errors.dfy`: exceptions and the result type.
- `deques.dfy`: `deque.remove` and the sequence filters used as reference definitions.
- `lru_cache.dfy`: the cache.
- `lru_recency.dfy`: the LRU ordering theorem.
- `cycler.dfy`: `Cycler` and `Joiner`.
- `autoescape.dfy`: `select_autoescape`.

The `setdefault` docstring (src/jinja2/utils.py:449-450) says an existing key is left unchanged, but the code (src/jinja2/utils.py:453) looks the key up through `self[key]` and so promotes it to most recently used. The model follows the code: the value is left unchanged, the key is promoted, and `LruCache.SetDefault` states both facts.

## Model

| member | source | states |
|---|---|---|
| `LruCache.ValidSizes` | src/jinja2/utils.py:406-410 | under the invariant the queue and the mapping have the same size |
| `LruCache.Init` | src/jinja2/utils.py:406-410 | a new cache is empty, has the given capacity, and is valid when the capacity is positive |
| `LruCache.Copy` | src/jinja2/utils.py:434-439 | filling a fresh cache of the same capacity from the mapping and the queue gives an identical, valid cache |
| `LruCache.Contains` | src/jinja2/utils.py:467-469 | under the invariant, membership in the mapping is membership in the recency queue |
| `LruCache.Len` | src/jinja2/utils.py:471-473 | under the invariant the size is the queue length and at most the capacity |
| `LruCache.GetItem` | src/jinja2/utils.py:478-498 | an absent key raises KeyError; a present key returns its value, leaves the mapping unchanged, moves the key to the back with the other keys in order, keeps the invariant, and is a no-op on the state when the key is already last |
| `LruCache.GetItemDefensivePathsUnreachable` | src/jinja2/utils.py:486-494 | under the invariant `_queue[-1]` exists and `_remove` never raises the ValueError the code swallows |
| `LruCache.SetItem` | src/jinja2/utils.py:500-513 | the key ends up last with the new value; other survivors keep their values and relative order; a present key causes no eviction; a new key with room adds one entry; a new key into a full cache evicts exactly the front key and the size stays at capacity; the invariant is kept |
| `LruCache.DelItem` | src/jinja2/utils.py:515-527 | KeyError exactly when the key is absent; otherwise the key leaves both structures, nothing else changes, and the invariant is kept |
| `LruCache.DelItemDefensivePathUnreachable` | src/jinja2/utils.py:521-525 | under the invariant the `_remove` in `__delitem__` never raises the ValueError the code swallows |
| `LruCache.Clear` | src/jinja2/utils.py:458-465 | the cache becomes empty and keeps its capacity and the invariant |
| `LruCache.Get` | src/jinja2/utils.py:441-446 | an absent key yields the default and leaves the state untouched (nothing inserted); a present key gives exactly what `__getitem__` gives, which under the invariant is its value with the key promoted and the capacity and mapping kept |
| `LruCache.SetDefault` | src/jinja2/utils.py:448-456 | a present key keeps its value, which is returned, and is promoted to most recently used; an absent key is stored with the default exactly as `__setitem__` stores it, eviction included, and the default is returned; the invariant is kept |
| `LruCache.Items` | src/jinja2/utils.py:529-533 | one pair per queue key, each with its mapped value, most recently used first |
| `LruCache.Values` | src/jinja2/utils.py:535-537 | the values in the order of `items` |
| `LruCache.Keys` | src/jinja2/utils.py:539-541 | `list(self)`: exactly the iteration order, which is the keys of `items` in order |
| `LruCache.Iter` | src/jinja2/utils.py:543-544 | the keys from most to least recently used |
| `LruCache.Reversed` | src/jinja2/utils.py:546-550 | the keys from least to most recently used, the exact reverse of iteration |
| `LruCache.ItemsAreEntries` | src/jinja2/utils.py:529-541 | under the invariant `items` contains every mapping entry, and `keys` lists each mapped key exactly once |
| `LruCache.SetItemMostRecent` | src/jinja2/utils.py:500-511 | after a store the stored pair heads `items` and the key ends `__reversed__` |
| `LruCache.GetItemMostRecent` | src/jinja2/utils.py:478-496 | after a lookup the key heads `keys` and the other keys keep their order |
| `LruCache.CapacityTwoScenario` | src/jinja2/utils.py:441-533 | a worked example with capacity 2: store, promote by lookup, evict the least recently used key, delete once then raise KeyError, and `get` on an empty cache |
| `Deques.RemoveFirst` | src/jinja2/utils.py:416 | `deque.remove` fails exactly when the element is absent; otherwise it removes the first occurrence and keeps the other elements in their order |
| `Deques.RemoveFirstIsErase` | src/jinja2/utils.py:507 | on a queue without duplicates, `deque.remove` equals filtering the key out, so the other keys keep their relative order |
| `LruRecency.Apply` | src/jinja2/utils.py:441-527 | every cache call, including one that raises and is caught, keeps the invariant and the capacity |
| `LruRecency.Run` | src/jinja2/utils.py:406-527 | any sequence of calls on a valid cache keeps the invariant |
| `LruRecency.RunFollowsRecencyOrder` | src/jinja2/utils.py:478-527 | from a fresh cache, the queue is the unbounded recency list of all touched keys, restricted to the keys present; evictions and deletions never reorder the survivors |
| `LruRecency.QueueOrderedByLastTouch` | src/jinja2/utils.py:506-511 | from a fresh cache, the queue orders present keys by last touch, so the front (the eviction victim) is the present key touched longest ago |
| `LruRecency.RecencyOrderByLastTouch` | src/jinja2/utils.py:487-495 | promoting each touched key in turn orders keys by their last touch |
| `Cyclers.NewCycler` | src/jinja2/utils.py:675-679 | no items raises RuntimeError; otherwise the cycler is valid, keeps the items and starts at position 0, the first item |
| `Cyclers.Reset` | src/jinja2/utils.py:681-683 | reset returns the cycler to the state it was created in |
| `Cyclers.Current` | src/jinja2/utils.py:685-690 | the current item is one of the cycler's items |
| `Cyclers.Next` | src/jinja2/utils.py:692-698 | returns the current item; the position stays in range, advances by one, and wraps to 0 after the last item |
| `Cyclers.CurrentIsNext` | src/jinja2/utils.py:685-698 | `current` is the item `next` returns |
| `Cyclers.FreshCyclerYieldsInOrder` | src/jinja2/utils.py:669-698 | a freshly built cycler yields its items in the order given, the i-th call returning item i modulo the item count |
| `Cyclers.AdvancePosition` | src/jinja2/utils.py:692-698 | after n calls of `next` the position is the start plus n, modulo the item count |
| `Cyclers.EmittedCycles` | src/jinja2/utils.py:692-698 | the i-th call of `next` returns the item i places after the start, wrapping around |
| `Cyclers.FullRoundIsIdentity` | src/jinja2/utils.py:692-698 | as many `next` calls as there are items bring the cycler back to its state |
| `Cyclers.NewJoiner` | src/jinja2/utils.py:706-708 | a new joiner keeps the separator and is unused |
| `Cyclers.DefaultJoiner` | src/jinja2/utils.py:706-708 | `Joiner()` without arguments separates with a comma and a space |
| `Cyclers.Call` | src/jinja2/utils.py:710-715 | the first call returns the empty string, later calls the separator, and the joiner is used afterwards |
| `Cyclers.JoinerSeparates` | src/jinja2/utils.py:703-715 | a fresh joiner called n times returns nothing before the first item and the separator before each later one |
| `Autoescape.Lower` | src/jinja2/utils.py:601 | lower-casing keeps the length, maps each character, and leaves no upper-case letter |
| `Autoescape.LowerIdempotent` | src/jinja2/utils.py:601 | lower-casing twice is lower-casing once |
| `Autoescape.LStripDots` | src/jinja2/utils.py:595-596 | `lstrip('.')` removes exactly the leading dots, leaving a suffix that does not start with a dot |
| `Autoescape.Pattern` | src/jinja2/utils.py:595-596 | a pattern starts with exactly one dot and contains no upper-case letter |
| `Autoescape.PatternIgnoresDotsAndCase` | src/jinja2/utils.py:595-596 | "HTML", ".html" and "..Html" normalise to the same pattern ".html" |
| `Autoescape.EndsWithAny` | src/jinja2/utils.py:602-605 | `endswith` on a tuple is true exactly when some pattern ends the name |
| `Autoescape.SelectAutoescape` | src/jinja2/utils.py:555-596 | each extension is normalised to its pattern, in the order given, and both defaults are kept |
| `Autoescape.DefaultSelector` | src/jinja2/utils.py:555-560 | the default arguments give patterns .html, .htm and .xml, none disabled, on for strings, off otherwise |
| `Autoescape.Decide` | src/jinja2/utils.py:598-606 | no name gives the string default; a name matching an enabled pattern gives true; otherwise true exactly when it matches no disabled pattern and the default is true |
| `Autoescape.DecideIgnoresCase` | src/jinja2/utils.py:591-601 | names equal up to letter case get the same decision |
| `Autoescape.ExtensionSpellingIrrelevant` | src/jinja2/utils.py:591-606 | enabled and disabled extension lists that agree position by position after stripping dots and lower-casing build the same selector, which decides every template name the same way, for any two defaults |
| `Autoescape.SpellingExample` | src/jinja2/utils.py:595-596 | enabling "HTML", ".html" or "..Html" gives the same selector |
| `Autoescape.DefaultSelectorExamples` | src/jinja2/utils.py:555-606 | with the defaults, "index.HTML" is escaped, "notes.txt" and a bare "html" are not, and a string template is |

## Left out

- The `_wlock` lock and thread safety: every operation is modelled as atomic, so the weak consistency of the unlocked `__contains__` and `__len__` is not modelled.
- Pickling support (`__getstate__`, `__setstate__`, `__getnewargs__`) and the method aliasing of `_postinit`: Python object-protocol mechanics with no cache behaviour of their own.
- `__repr__`: string formatting only.
- `LruCache.SetItem` and `LruCache.SetDefault` require the invariant. On a state that breaks it, the source can raise in the middle of an update: ValueError from `_remove`, IndexError from `_popleft`, or KeyError from `del`. `Init` and every operation keep the invariant, so no such state is reachable.
- `LruCache.Items` and `LruCache.Values` require every queue key to be in the mapping. On a state where one is not, `items` raises KeyError from its dict lookup; the invariant rules such a state out, so this error path is not modelled.
- Default arguments of `get` and `setdefault` (`default=None`): the value type is generic, so `LruCache.Get` and `LruCache.SetDefault` take the default explicitly; a caller passing `None` picks an option-typed value. The default separator of `Joiner` is modelled by `Cyclers.DefaultJoiner`.
- A capacity below 1: `__init__` does not check it, and with capacity 0 `__setitem__` would pop from an empty deque. The model makes a capacity of at least 1 part of the invariant.
- `Autoescape.Lower`: only ASCII letters are lowered. Python's `str.lower` also maps non-ASCII letters, which is not modelled.
- The rest of `utils.py`: `urlize` (regular expressions and markup escaping), `generate_lorem_ipsum` (randomness), `url_quote` and `unicode_urlencode` (urllib wrappers), `htmlsafe_json_dumps` (wraps `json.dumps`), `import_string`, `open_if_exists`, `clear_caches` and `pformat` (imports, filesystem, pprint), the marker decorators, `is_undefined`, `object_type_repr` and `Namespace` (attribute and type introspection), and the `have_async_gen` probe. None of these is part of the cache or its helpers.
