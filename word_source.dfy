/** Choice of the secret word: the candidate words minus the secrets that
    earlier games recorded in the results log. */
module WordSource {

  datatype Option<T> = None | Some(value: T)

  datatype Result<T, E> = Ok(value: T) | Err(error: E)

  /** A value of a record in the results log. */
  datatype JsonValue = JString(s: string) | JInt(n: int)

  /** One entry of the results log: a JSON object. */
  type Record = map<string, JsonValue>

  datatype LoadError =
    | ExhaustedPool  // every candidate word was a secret before

  /** Key under which a saved record holds the secret of its game. */
  const SecretKey: string := "actual_word"

  /** Key under which the used secrets are looked up when choosing a new one. */
  const LookupKey: string := "word_guessed"

  /** The value of a key, or None when the record lacks it. */
  function Lookup(r: Record, key: string): Option<JsonValue>
  {
    if key in r then Some(r[key]) else None
  }

  /** The record saved at the end of a game. */
  function MakeRecord(secret: string, lastGuess: string, result: string, attempts: nat, date: string): (r: Record)
    ensures r.Keys == {"actual_word", "last_word_guessed", "result", "num_attempts", "date"}
    ensures Lookup(r, SecretKey) == Some(JString(secret))
    ensures Lookup(r, LookupKey) == None
  {
    map[
      "actual_word" := JString(secret),
      "last_word_guessed" := JString(lastGuess),
      "result" := JString(result),
      "num_attempts" := JInt(attempts),
      "date" := JString(date)
    ]
  }

  /** The only secret a saved record holds is the one of its game. */
  lemma SecretOfRecord(secret: string, lastGuess: string, result: string, attempts: nat, date: string)
    ensures UsedSecrets([MakeRecord(secret, lastGuess, result, attempts, date)]) == {secret}
  {
    var rec := MakeRecord(secret, lastGuess, result, attempts, date);
    assert Lookup([rec][0], SecretKey) == Some(JString(secret));
  }

  // ----- Used secrets, as the word is chosen -----

  /** The values found under LookupKey, one per record (None for a record
      without that key). */
  function LookedUpAsWritten(records: seq<Record>): (r: set<Option<JsonValue>>)
    ensures forall i :: 0 <= i < |records| ==> Lookup(records[i], LookupKey) in r
    ensures forall v :: v in r ==> exists i :: 0 <= i < |records| && Lookup(records[i], LookupKey) == v
  {
    set i | 0 <= i < |records| :: Lookup(records[i], LookupKey)
  }

  /** The candidates minus every string among the looked-up values; with no
      records the candidates themselves. */
  function PossibleWordsAsWritten(words: seq<string>, records: seq<Record>): (r: set<string>)
    ensures forall w :: w in r <==>
      w in words && !(exists i :: 0 <= i < |records| && Lookup(records[i], LookupKey) == Some(JString(w)))
  {
    if records != [] then
      set w | w in words && Some(JString(w)) !in LookedUpAsWritten(records)
    else
      set w | w in words
  }

  /** Records as they are saved carry no LookupKey, so the lookup excludes
      nothing: every candidate stays possible, secrets of earlier games included. */
  lemma {:induction false} SavedRecordsExcludeNothing(words: seq<string>, records: seq<Record>)
    requires forall i :: 0 <= i < |records| ==> LookupKey !in records[i]
    ensures PossibleWordsAsWritten(words, records) == set w | w in words
  {
    if records != [] {
      assert LookedUpAsWritten(records) == {None} by {
        assert Lookup(records[0], LookupKey) == None;
      }
    }
  }

  /** One game won with "crane" leaves "crane" possible as the next secret. */
  lemma ReplayedSecret()
    ensures var rec := MakeRecord("crane", "crane", "won", 1, "2024-01-01");
      && "crane" in PossibleWordsAsWritten(["crane"], [rec])
      && AvailableWords(["crane"], [rec]) == {}
  {
    var rec := MakeRecord("crane", "crane", "won", 1, "2024-01-01");
    SavedRecordsExcludeNothing(["crane"], [rec]);
    assert "crane" in UsedSecrets([rec]) by {
      assert Lookup([rec][0], SecretKey) == Some(JString("crane"));
    }
  }

  // ----- Used secrets, read under the key they are saved under -----

  /** The secrets that the records hold under SecretKey. */
  function UsedSecrets(records: seq<Record>): (r: set<string>)
    ensures forall w :: w in r <==>
      exists i :: 0 <= i < |records| && Lookup(records[i], SecretKey) == Some(JString(w))
  {
    set i | 0 <= i < |records| && SecretKey in records[i] && records[i][SecretKey].JString?
      :: records[i][SecretKey].s
  }

  /** The candidates that were not the secret of an earlier game. */
  function AvailableWords(words: seq<string>, records: seq<Record>): (r: set<string>)
    ensures forall w :: w in r ==> w in words
    ensures forall i, w :: 0 <= i < |records| && Lookup(records[i], SecretKey) == Some(JString(w)) ==> w !in r
  {
    (set w | w in words) - UsedSecrets(records)
  }

  /** A word is available exactly when it is a candidate and no record
      holds it as its secret. */
  lemma AvailableIsDifference(words: seq<string>, records: seq<Record>, w: string)
    ensures w in AvailableWords(words, records) <==>
      w in words && !(exists i :: 0 <= i < |records| && Lookup(records[i], SecretKey) == Some(JString(w)))
  {
    if exists i :: 0 <= i < |records| && Lookup(records[i], SecretKey) == Some(JString(w)) {
      var i :| 0 <= i < |records| && Lookup(records[i], SecretKey) == Some(JString(w));
      assert w == records[i][SecretKey].s;
    }
  }

  /** Saving the record of a game takes its secret out of the available words
      and leaves the others as they were. */
  lemma SavingRemovesSecret(words: seq<string>, records: seq<Record>, rec: Record)
    requires Lookup(rec, SecretKey).Some? && Lookup(rec, SecretKey).value.JString?
    ensures AvailableWords(words, records + [rec])
         == AvailableWords(words, records) - {Lookup(rec, SecretKey).value.s}
  {
    var all := records + [rec];
    var secret := Lookup(rec, SecretKey).value.s;
    assert UsedSecrets(all) == UsedSecrets(records) + {secret} by {
      forall w ensures w in UsedSecrets(all) <==> w in UsedSecrets(records) + {secret} {
        if w in UsedSecrets(all) {
          var i :| 0 <= i < |all| && SecretKey in all[i] && all[i][SecretKey].JString? && all[i][SecretKey].s == w;
          if i < |records| { assert all[i] == records[i]; }
        }
        if w in UsedSecrets(records) {
          var i :| 0 <= i < |records| && SecretKey in records[i] && records[i][SecretKey].JString?
            && records[i][SecretKey].s == w;
          assert all[i] == records[i];
        }
        if w == secret {
          assert all[|records|] == rec;
        }
      }
    }
  }

  /** Choice of the secret: some word that is a candidate and was not the
      secret of an earlier game, or ExhaustedPool when there is none. */
  method LoadWord(words: seq<string>, records: seq<Record>) returns (r: Result<string, LoadError>)
    ensures r.Ok? ==> r.value in words && r.value !in UsedSecrets(records)
    ensures r.Err? <==> AvailableWords(words, records) == {}
  {
    var possible := AvailableWords(words, records);
    if possible == {} {
      return Err(ExhaustedPool);
    }
    var w :| w in possible;
    return Ok(w);
  }
}
