# Employee short-number store

A model of the record store inside `EmployeeApp` (`main.py`) of the staff
short-number manager. The program keeps employees as a list of
`{"name", "short"}` dicts, `self.data`, in insertion order. It loads the list
from `employees.json` at start-up and rewrites the whole file after every
change. The UI's search box filters the list as the user types. The add
button appends a record, and the edit dialog of a record either overwrites it
or deletes it.

The model has three modules:

- `PyStr` (`pystr.dfy`) gives the Python string operations the store uses.
  `Strip` is `str.strip()`, removing exactly the characters for which
  `str.isspace()` holds. `Lower` is `str.lower()` on ASCII. `Contains` is the
  substring test `q in s`.
- `Records` (`records.dfy`) holds the `Record` datatype, the match test of
  `refresh_list` (`Matches`) and the order-preserving filter built on it
  (`Filter`). It also holds the semantics of `list.remove`: `IndexOf` finds
  the first equal record and `Without` drops one position.
- `EmployeeApp` (`app.dfy`) holds the class `Store`. Its field `data` is
  `self.data`. Its field `disk` is the content of `employees.json`, and the
  ghost counter `saves` counts calls of `save_data`. The methods follow the
  handlers one for one: `LoadData`, `SaveData`, `RefreshList`, `AddEmployee`,
  `UpdateEmployee` and `DeleteEmployee`. `Restart` and two scenarios show what
  a caller can conclude from the contracts.

Points of behaviour the model keeps as the code has them:

- Edit and delete do not use a stable identifier and have no "not found"
  check. Edit writes into the dict object the dialog was opened on. Delete
  calls `list.remove`, which takes out the first value-equal dict, and which
  raises `ValueError` when there is none.
- `add_employee` returns nothing. After an add, edit or delete, the list is
  redrawn with the empty query, so every record is shown whatever the search
  box holds.
- An add puts one more copy of the record into the list. The record is shown
  exactly once only if no equal record was there before. Duplicates are
  allowed.

## Model

| member | source | states |
|---|---|---|
| `PyStr.IsSpace` | main.py:174-175 | the whitespace that `strip()` removes is Python's `str.isspace()` set; blank, tab, line feed and carriage return are in it, and no visible ASCII character is |
| `PyStr.Strip` | main.py:174-175 | `strip()` never lengthens its input, and its result is empty or neither starts nor ends with whitespace (the edit dialog strips the same way, main.py:241-242) |
| `PyStr.StripSlice` | main.py:174-175 | `strip()` returns a contiguous slice of its input that has only whitespace before and after it, and that neither starts nor ends with whitespace |
| `PyStr.StripEmptyIff` | main.py:174-176 | a field is empty after `strip()` exactly when it is all whitespace, which is when `add_employee` refuses it |
| `PyStr.StripIdempotent` | main.py:174-175 | stripping a stripped field changes nothing |
| `PyStr.StripKeeps` | main.py:174-175 | text with no whitespace at either end is kept unchanged by `strip()` |
| `PyStr.LowerChar` | main.py:157 | in this ASCII model of `lower()`, a lower-cased character is never an ASCII capital; only 'A'..'Z' change, and each becomes a letter in 'a'..'z' (Python also lowers other cased letters; see Left out) |
| `PyStr.Lower` | main.py:157 | in this ASCII model of `lower()`, the length is kept and each character is lower-cased on its own (Python's `lower()` may lengthen text and depends on context; see Left out) |
| `PyStr.Contains` | main.py:157 | the substring test `q in s` never finds a query longer than `s`, and always finds the empty query and `s` itself |
| `PyStr.ContainsIff` | main.py:157 | the substring test `q in s` holds exactly when `q` occurs at some position of `s` |
| `Records.Matches` | main.py:157 | the search test of `refresh_list`: lower-cased query in lower-cased name, or query in short number; in this model, a query longer than both fields never matches (a bound that holds only because `Lower` keeps the length; see Left out) |
| `Records.MatchesIff` | main.py:157 | a record matches exactly when the lower-cased query occurs at some position of the lower-cased name, or the query occurs at some position of the short number |
| `Records.Filter` | main.py:156-157 | the records drawn for a query are those of the list that match, in list order; never more than the list holds |
| `Records.FilterSelectsMatches` | main.py:156-157 | the records drawn are exactly those at the positions whose record matches (lower-cased query in lower-cased name, or query in short), in ascending position order |
| `Records.FilterMembers` | main.py:156-157 | a record is drawn exactly when it is in the list and matches the query |
| `Records.EmptyQueryMatches` | main.py:150-157 | the default empty query matches every record |
| `Records.FilterEmptyQuery` | main.py:150-157 | searching for the empty query draws the whole list, unchanged and in order |
| `Records.IndexOf` | main.py:248 | `list.remove` targets the first position holding a record equal to the argument; the position is past the end exactly when no equal record exists |
| `Records.Without` | main.py:248 | removing one position leaves one fewer element and takes exactly one copy of that record out of the multiset; the others keep their order |
| `Records.RemoveFirstVersusSelected` | main.py:247-248 | the record deleted is the first one equal to the dialog's record, never later than it; one copy of the same value goes either way; and the results coincide exactly when all records between the two are equal to it |
| `EmployeeApp.Store.constructor` | main.py:93-100 | the store starts with an empty list, with whatever data file is on disk, and with nothing saved |
| `EmployeeApp.Store.LoadData` | main.py:129-140 | the list becomes the file's records; it becomes empty when the file is absent or unreadable; every record is then drawn |
| `EmployeeApp.Store.SaveData` | main.py:142-148 | the file afterwards holds the whole current list, and one more save has happened |
| `EmployeeApp.Store.RefreshList` | main.py:150-165 | the records drawn equal the order-preserving filter of the list by the match test, and the list is not modified |
| `EmployeeApp.Store.AddEmployee` | main.py:172-182 | refused exactly when a stripped field is empty, and then list, file and save count are unchanged; otherwise exactly one record with the stripped fields is appended at the end, the file holds the new list, one save happens, and every record is drawn |
| `EmployeeApp.Store.UpdateEmployee` | main.py:240-245 | the selected record, and only it, gets the stripped new fields, even empty ones; the length and every other record are unchanged; the file holds the new list and every record is drawn |
| `EmployeeApp.Store.DeleteEmployee` | main.py:247-251 | fails exactly when no equal record is in the list, and then nothing changes and nothing is saved; otherwise the first equal record is taken out, the others keep their order, one copy leaves the multiset, the file holds the new list and every record is drawn |
| `EmployeeApp.Restart` | main.py:129-148 | a new start that loads the file the store last saved has the same list, in the same order |
| `EmployeeApp.SearchCaseScenario` | main.py:150-182 | after adding Alice / 101, "ALICE" and "101" find exactly that record and "999" finds nothing |
| `EmployeeApp.EndToEndScenario` | main.py:129-251 | add 张三 / 101, then find it by "张". Change the short number to 102: "101" then finds nothing and "102" finds it. A restart reloads it, and after deleting it from the restarted store its list is empty |

## Left out

- The Kivy user interface is not modelled: the layout string, `MainLayout`, the popups, `show_message`, `clear_inputs`, the button bindings and the widget heights in `refresh_list`. The records a refresh would draw are returned as `shown` instead.
- Font registration and operating-system detection in `register_chinese_font` are not modelled. They are file-system probing and a library call.
- JSON encoding and the file I/O are not modelled. The file is a `DataFile` value. `Unreadable` stands for any exception raised by `open` or `json.load`, and `Holds` for a file that parses to a list of records whose `name` and `short` values are both strings. Files whose dicts hold a non-string value are not modelled. When a `short` is a number, `true`/`false` or `null`, the file loads and is drawn. A query that the name does not contain then raises `TypeError` at `query in emp["short"]`. Whether such a record can be edited or deleted depends on the toolkit's `TextInput`. When a `short` is a list or an object, `query in emp["short"]` is a membership test on its elements or keys and raises nothing. When a `name` is not a string, `emp["name"].lower()` raises in the `refresh_list()` that `load_data` calls after its `try`, so start-up fails.
- A file holding well-formed JSON other than a list of `{"name", "short"}` dicts is not modelled. Such a file loads. A non-empty such value then fails in `refresh_list`; an empty object or string fails only at the next add, where `append` does not exist on it. Dicts with extra keys, which would change what `list.remove` compares, are not modelled either.
- `EmployeeApp.Store.SaveData`: assumes the write succeeds. `save_data` catches and prints a write error, and then the file may be left unchanged or truncated.
- `PyStr.Lower`, `PyStr.LowerChar`, `Records.Matches`: lower-casing covers ASCII letters only, not Python's full Unicode `str.lower()`. Names without case, such as Chinese ones, are unaffected. Python's `lower()` also maps letters such as 'Ä' and 'Σ'. It can lengthen text: `"İ".lower()` (U+0130) is two characters. It depends on context: a word-final 'Σ' becomes 'ς'. So the model has properties Python lacks. Lowering keeps the length and works character by character. The length bound in `Records.Matches` holds of the model only: with Python's `lower()`, the name "İ" and the short number "1" are matched by the two-character query "i̇".
- `EmployeeApp.Store.UpdateEmployee`: the dict object held by the edit dialog is identified by its position in the list. Every dict in the list is a distinct object, because `append` and `json.load` create fresh ones. The dialog is dismissed after each save or delete, so it never edits a record that has left the list.
- `EmployeeApp.Store.DeleteEmployee`: what Kivy does with the `ValueError` that escapes the handler is not modelled. The model only says that the list and the file are left as they were.
- Console logging with `print` is not modelled.
